/**
  The boot-time frame allocator: a moving cursor over the loader's bitmap.

  `Free()` is the abstract state.  Where the kernel panics, which never returns, a method returns
  `false` instead.
 */
module BootAllocator {
  import opened Bits
  import opened Bitmap
  import opened Pages

  class BootAllocator {
    var allocMap: Bitmap?
    var ptr: nat

    /** The cursor only has to stay inside the array: it is tested before it is compared to the count. */
    ghost predicate Valid()
      reads this, if allocMap != null then {allocMap.words} else {}
    {
      && allocMap != null
      && allocMap.Sized()
      && allocMap.Padded()
      && ptr < WORD_BITS * allocMap.words.Length
    }

    /** The free frames. */
    ghost function Free(): (s: set<nat>)
      requires allocMap != null
      reads this, allocMap.words
    {
      allocMap.Clear()
    }

    constructor ()
      ensures allocMap == null
    {
      allocMap, ptr := null, 0;
    }

    /** Moves the cursor to the lowest free frame; panics if there is none. */
    method UpdateAll() returns (ok: bool)
      requires allocMap != null && allocMap.Sized() && allocMap.Padded()
      modifies this`ptr
      ensures ok <==> Free() != {}
      ensures ok ==> Valid() && ptr in Free() && forall f :: f in Free() ==> ptr <= f
    {
      var first := allocMap.FirstZero();
      ptr := if first == -1 then TWO32 - 1 else first;
      ok := first != -1;
      assert ok ==> ptr in Free();
      assert !ok ==> forall f :: f !in Free();
    }

    method AddArena(bt: Bitmap?) returns (ok: bool)
      requires bt != null ==> bt.Sized() && bt.Padded()
      modifies this
      ensures bt == null ==> ok && allocMap == old(allocMap) && ptr == old(ptr)
      ensures bt != null ==> allocMap == bt && (ok <==> Free() != {})
      ensures bt != null && ok ==> Valid() && ptr in Free() && forall f :: f in Free() ==> ptr <= f
    {
      ok := true;
      if bt != null {
        allocMap := bt;
        ok := UpdateAll();
      }
    }

    /**
      Takes one frame: the one under the cursor if it is free, else the lowest free one.  Fails, by
      panicking, only when no frame is free.
     */
    method AllocateSingle() returns (ok: bool, addr: nat)
      requires Valid()
      modifies this`ptr, allocMap.words
      ensures ok <==> old(Free()) != {}
      ensures ok ==> Valid() && addr % PAGE_SIZE == 0 && addr / PAGE_SIZE in old(Free())
      ensures ok ==> Free() == old(Free()) - {addr / PAGE_SIZE}
      ensures ok ==> if old(ptr in Free()) then addr / PAGE_SIZE == old(ptr)
                     else forall f :: f in old(Free()) ==> addr / PAGE_SIZE <= f
      ensures ok ==> ptr == addr / PAGE_SIZE + 1
      ensures !ok ==> Free() == {}
    {
      ok, addr := true, 0;
      var b := allocMap.Test(ptr);
      if b || ptr >= allocMap.bitCount {
        ok := UpdateAll();
      }
      if ok { addr := TakeFrame(); }
    }

    /** Marks the frame under the cursor and moves on. */
    method TakeFrame() returns (addr: nat)
      requires Valid() && ptr in Free()
      modifies this`ptr, allocMap.words
      ensures Valid() && addr % PAGE_SIZE == 0 && addr / PAGE_SIZE == old(ptr) && ptr == old(ptr) + 1
      ensures Free() == old(Free()) - {old(ptr)}
    {
      allocMap.TakeOut(ptr);
      FrameAddress(ptr);
      addr := ptr * PAGE_SIZE;
      ptr := ptr + 1;
    }

    /**
      Gives back `pages` frames.  The address is stepped byte by byte; each byte clears the bit of its
      own frame.  The number of pages is bounded by the `int` product it is multiplied into.
     */
    method FreePages(addr: Word64, pages: nat)
      requires Valid()
      requires 1 <= pages <= 0x8_0000 && addr + pages * PAGE_SIZE < TWO64
      requires addr / PAGE_SIZE + pages <= allocMap.bitCount
      modifies allocMap.words
      ensures Valid()
      ensures forall f :: f in Free() <==>
        f in old(Free()) || addr / PAGE_SIZE <= f < addr / PAGE_SIZE + pages
    {
      var left := pages - 1;
      var a := addr;
      ghost var done := 0;
      while a <= addr + left * PAGE_SIZE
        invariant addr <= a <= addr + left * PAGE_SIZE + 1
        invariant done == if a == addr then 0 else (a - 1) / PAGE_SIZE - addr / PAGE_SIZE + 1
        invariant forall k: nat :: (
          allocMap.Has(k) <==> old(allocMap.Has(k)) && !(addr / PAGE_SIZE <= k < addr / PAGE_SIZE + done))
      {
        allocMap.Reset(AlignDown(a) / PAGE_SIZE);
        done := a / PAGE_SIZE - addr / PAGE_SIZE + 1;
        a := a + 1;
      }
    }
  }

  lemma FrameAddress(f: nat)
    ensures f * 4096 % 4096 == 0 && f * 4096 / 4096 == f
  {
  }
}
