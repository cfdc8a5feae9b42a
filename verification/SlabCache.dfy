/** Slab caches: capacity arithmetic, the three lists, and the choice of a cache for a size. */
module SlabCache {
  import opened Bits
  import opened Pages
  import opened Slab

  const INT_LIMIT: nat := 0x4000_0000

  /**
    The two loops of `init_cache`.  `free` is an `int` that doubles until the object fits, so the size
    is bounded by what it can double to.
   */
  method Layout(size: nat) returns (order: nat, objects: nat, left: nat)
    requires size + OBJCTL_T + SLAB_T <= INT_LIMIT
    ensures 4096 * Pow2(order) == 28 + objects * (size + 4) + left
    ensures objects >= 1 && left < size + 4
    ensures order > 0 ==> 4096 * Pow2(order - 1) < size + 4 + 28
  {
    var free := PAGE_SIZE;
    order, objects := 0, 0;
    while free < size + OBJCTL_T + SLAB_T
      invariant free == PAGE_SIZE * Pow2(order) && free <= INT_LIMIT
      invariant order > 0 ==> PAGE_SIZE * Pow2(order - 1) < size + OBJCTL_T + SLAB_T
      decreases INT_LIMIT - free
    {
      DoublesWithin(free, order);
      free := free * 2;
      order := order + 1;
    }
    free := free - SLAB_T;
    while free >= size + OBJCTL_T
      invariant PAGE_SIZE * Pow2(order) == SLAB_T + objects * (size + OBJCTL_T) + free
      invariant 0 <= free && (objects == 0 ==> free >= size + OBJCTL_T)
    {
      free := free - (size + OBJCTL_T);
      objects := objects + 1;
    }
    left := free;
  }

  /** Powers of two times the page size below 2^30 double to at most 2^30. */
  lemma DoublesWithin(free: nat, order: nat)
    requires free == PAGE_SIZE * Pow2(order) && free < INT_LIMIT
    ensures 2 * free <= INT_LIMIT
  {
    Pow2Values();
    Pow2Sum(10, 8);
    assert Pow2(18) == 0x4_0000;
    if order >= 18 { Pow2Grows(18, order); } else { Pow2Grows(order + 1, 18); }
  }

  /** Whatever colour a slab is given, header, `bufctl`, offset and objects fit its pages. */
  lemma EveryColourFits(order: nat, objects: nat, left: nat, size: nat, colour: nat)
    requires PAGE_SIZE * Pow2(order) == SLAB_T + Times(objects, size + OBJCTL_T) + left
    requires colour <= left / COLOUR
    ensures SLAB_T + objects * OBJCTL_T + colour * COLOUR + Times(objects, size) <= PAGE_SIZE * Pow2(order)
  {
    TimesOfSum(objects, size, OBJCTL_T);
    TimesIsProduct(objects, OBJCTL_T);
  }

  lemma {:induction false} TimesOfSum(n: nat, a: nat, b: nat)
    ensures Times(n, a + b) == Times(n, a) + Times(n, b)
  {
    if n > 0 { TimesOfSum(n - 1, a, b); }
  }

  /** Colours are given out in turn, from 0 up to the number of them. */
  function NextColour(c: nat, num: nat): (r: nat)
    ensures c <= num ==> r == if c < num then c + 1 else 0
  {
    NextInTurn(c, num);
    (c + 1) % (num + 1)
  }

  lemma NextInTurn(c: nat, num: nat)
    ensures c <= num ==> (c + 1) % (num + 1) == if c < num then c + 1 else 0
  {
    if c <= num {
      ModUnique(c + 1, num + 1, if c < num then 0 else 1, if c < num then c + 1 else 0);
    }
  }

  /** The three lists of a cache at one moment. */
  datatype Queues = Queues(free: seq<Slab>, partial: seq<Slab>, full: seq<Slab>)

  /** An allocation takes the first partial slab, else the first free one, else a new one, and puts it in front. */
  ghost predicate Drawn(q: Queues, r: Queues, slab: Slab, isFull: bool) {
    var rest := if q.partial == [] then [] else q.partial[1..];
    && (q.partial != [] ==> slab == q.partial[0])
    && (q.partial == [] && q.free != [] ==> slab == q.free[0])
    && r.free == (if q.partial == [] && q.free != [] then q.free[1..] else q.free)
    && r.partial == (if isFull then rest else [slab] + rest)
    && r.full == (if isFull then [slab] + q.full else q.full)
  }

  /** A release moves a full slab to the front of the partial ones, and one that empties to that of the free ones. */
  ghost predicate Refiled(q: Queues, r: Queues, slab: Slab, isEmpty: bool) {
    if slab in q.full then
      r.free == q.free && r.partial == [slab] + q.partial && LeftOut(q.full, slab, r.full)
    else if isEmpty then
      r.free == [slab] + q.free && LeftOut(q.partial, slab, r.partial) && r.full == q.full
    else
      r == q
  }

  class Cache {
    const slabSize: nat
    const order: nat
    const slabObjects: nat
    const colourNum: nat
    const left: nat                 // bytes of a slab that no object uses
    var colourNext: nat
    var listFree: seq<Slab>         // the three lists, first entry first
    var listPartial: seq<Slab>
    var listFull: seq<Slab>
    ghost var slabs: set<Slab>      // all of them

    ghost function Queued(): Queues
      reads this
    {
      Queues(listFree, listPartial, listFull)
    }

    /** At least one object, in the least order that holds one; no room is left for another. */
    ghost predicate Sized() {
      && slabSize > 0 && slabObjects >= 1 && colourNum == left / COLOUR
      && Bytes() == SLAB_T + Times(slabObjects, slabSize + OBJCTL_T) + left && left < slabSize + OBJCTL_T
      && (order > 0 ==> PAGE_SIZE * Pow2(order - 1) < slabSize + OBJCTL_T + SLAB_T)
    }

    /** The size of a slab: 2^order pages. */
    function Bytes(): nat { PAGE_SIZE * Pow2(order) }

    ghost predicate Fits(s: Slab)
      reads s
    {
      && s.Valid() && s.slabSize == slabSize && s.slabObjects == slabObjects && s.bytes == Bytes() && s.Roomy()
      && exists c: nat :: c <= colourNum && s.colourOffset == c * COLOUR
    }

    /** The lists hold exactly the slabs of `on`, each once, on the list of its state. */
    ghost predicate Lists(on: set<Slab>)
      reads this, on
    {
      && on == Members(listFree) + Members(listPartial) + Members(listFull)
      && NoDup(listFree) && NoDup(listPartial) && NoDup(listFull)
      && Members(listFree) !! Members(listPartial) !! Members(listFull)
      && (forall s :: s in on ==> Fits(s))
      && (forall s :: s in on && s in listFree ==> s.inuse == 0)
      && (forall s :: s in on && s in listPartial ==> s.inuse < slabObjects && (slabObjects >= 2 ==> s.inuse > 0))
      && (forall s :: s in on && s in listFull ==> s.inuse == slabObjects)
    }

    ghost predicate Ready()
      reads this, slabs
    {
      Sized() && colourNext <= colourNum && Lists(slabs) && PagesApart(slabs)
    }

    /** `Ready`, behind a quantifier: whoever only hands caches around does not see what is in them. */
    ghost predicate Valid()
      reads this, slabs
    {
      forall c: Cache {:trigger c.Ready()} :: c == this ==> c.Ready()
    }

    lemma ValidIsReady()
      ensures Valid() <==> Ready()
    {
      var known := Ready();
    }

    lemma SlabsFit()
      requires Valid()
      ensures forall s :: s in slabs ==> s.Roomy() && s.slabSize == slabSize
    {
      ValidIsReady();
    }

    constructor (size: nat)
      requires 0 < size && size + OBJCTL_T + SLAB_T <= INT_LIMIT
      ensures Valid() && slabs == {} && slabSize == size && colourNext == 0
      ensures listFree == listPartial == listFull == []
    {
      var order, objects, left := Layout(size);
      TimesIsProduct(objects, size + OBJCTL_T);
      this.slabSize, this.order, this.slabObjects, this.left := size, order, objects, left;
      colourNum, colourNext := left / COLOUR, 0;
      listFree, listPartial, listFull := [], [], [];
      slabs := {};
      new;
      ValidIsReady();
    }

    /**
      `cache_alloc` once the cache is chosen.  `page` is the address of the pages for a new slab, should
      one be needed; they are in no other slab.  The object handed out was not live, and its bytes meet
      no other live object.
     */
    method Alloc(page: nat) returns (slab: Slab, ghost id: nat, obj: nat)
      requires Valid() && (listFree == [] && listPartial == [] ==> Unused(page, Bytes(), slabs))
      modifies this, slabs
      ensures Valid() && slabs == old(slabs) + {slab} && id in slab.Live()
      ensures obj == slab.ObjectAddr(id) && Undisturbed(slab, id, slabs)
      ensures slab.slabSize == slabSize && slab.slabObjects == slabObjects && slab.bytes == Bytes()
      ensures slab in old(slabs) ==> id !in old(slab.Live()) && slab.Live() == old(slab.Live()) + {id}
      ensures slab !in old(slabs) ==> fresh(slab) && slab.addr == page && slab.Live() == {id}
      ensures slab in old(slabs) <==> old(listFree != [] || listPartial != [])
      ensures old(listPartial != []) ==> slab == old(listPartial)[0]
      ensures old(listPartial == [] && listFree != []) ==> slab == old(listFree)[0]
      ensures if slab in old(slabs) then id == old(slab.free) else id == 0
      ensures listFree == if old(listPartial == [] && listFree != []) then old(listFree)[1..] else old(listFree)
      ensures var rest := if old(listPartial) == [] then [] else old(listPartial)[1..];
        if slab.inuse == slabObjects
        then listFull == [slab] + old(listFull) && listPartial == rest
        else listFull == old(listFull) && listPartial == [slab] + rest
      ensures if slab in old(slabs) then colourNext == old(colourNext)
        else slab.colourOffset == old(colourNext) * 64 && colourNext == NextColour(old(colourNext), colourNum)
      ensures forall s :: s in old(slabs) && s != slab ==> s.Live() == old(s.Live())
    {
      ValidIsReady();
      slab, id, obj := AllocReady(page);
      ValidIsReady();
    }

    method AllocReady(page: nat) returns (slab: Slab, ghost id: nat, obj: nat)
      requires Ready() && (listFree == [] && listPartial == [] ==> Unused(page, Bytes(), slabs))
      modifies this, slabs
      ensures Ready() && slabs == old(slabs) + {slab} && id in slab.Live()
      ensures obj == slab.ObjectAddr(id) && Undisturbed(slab, id, slabs)
      ensures slab.slabSize == slabSize && slab.slabObjects == slabObjects && slab.bytes == Bytes()
      ensures slab in old(slabs) ==> id !in old(slab.Live()) && slab.Live() == old(slab.Live()) + {id}
      ensures slab !in old(slabs) ==> fresh(slab) && slab.addr == page && slab.Live() == {id}
      ensures slab in old(slabs) <==> old(listFree != [] || listPartial != [])
      ensures old(listPartial != []) ==> slab == old(listPartial)[0]
      ensures old(listPartial == [] && listFree != []) ==> slab == old(listFree)[0]
      ensures if slab in old(slabs) then id == old(slab.free) else id == 0
      ensures listFree == if old(listPartial == [] && listFree != []) then old(listFree)[1..] else old(listFree)
      ensures var rest := if old(listPartial) == [] then [] else old(listPartial)[1..];
        if slab.inuse == slabObjects
        then listFull == [slab] + old(listFull) && listPartial == rest
        else listFull == old(listFull) && listPartial == [slab] + rest
      ensures if slab in old(slabs) then colourNext == old(colourNext)
        else slab.colourOffset == old(colourNext) * 64 && colourNext == NextColour(old(colourNext), colourNum)
      ensures forall s :: s in old(slabs) && s != slab ==> s.Live() == old(s.Live())
    {
      if listFree == [] && listPartial == [] {
        slab := NewSlab(page);
      } else {
        slab := Pick();
      }
      id, obj := TakeAndPlace(slab);
      LiveUndisturbed(slab, id, slabs);
    }

    /** A cache one of whose slabs, with a free object, is on no list for the moment. */
    ghost predicate Held(slab: Slab)
      reads this, slabs
    {
      && Sized() && colourNext <= colourNum
      && slab in slabs && Lists(slabs - {slab}) && Fits(slab) && slab.inuse < slabObjects && PagesApart(slabs)
    }

    method TakeAndPlace(slab: Slab) returns (ghost id: nat, obj: nat)
      requires Held(slab)
      modifies this`listFree, this`listPartial, this`listFull, slab
      ensures Ready() && id !in old(slab.Live()) && slab.Live() == old(slab.Live()) + {id}
      ensures obj == slab.ObjectAddr(id) && id == old(slab.free) && listFree == old(listFree)
      ensures if slab.inuse == slabObjects
        then listFull == [slab] + old(listFull) && listPartial == old(listPartial)
        else listFull == old(listFull) && listPartial == [slab] + old(listPartial)
      ensures forall s :: s in slabs && s != slab ==> s.Live() == old(s.Live())
    {
      id, obj := TakeOff(slab);
      Place(slab);
    }

    /** `Slab.Take` on a slab that is on no list. */
    method TakeOff(slab: Slab) returns (ghost id: nat, obj: nat)
      requires Held(slab)
      modifies slab
      ensures Lists(slabs - {slab}) && Fits(slab)
      ensures id !in old(slab.Live()) && slab.Live() == old(slab.Live()) + {id} && obj == slab.ObjectAddr(id)
      ensures id == old(slab.free) && slab.inuse > 0
      ensures forall s :: s in slabs && s != slab ==> s.Live() == old(s.Live())
    {
      var next := slab.Take();
      id, obj := next, slab.ObjectAddr(next);
      assert forall s :: s in slabs - {slab} ==> old(Fits(s)) ==> Fits(s);
    }

    /**
      `cache_free` once the slab of the object is known.  The id comes from the object's address.  The
      slab leaves the full list, or the partial list if nothing of it is in use any more.
     */
    method Release(slab: Slab, obj: nat, ghost id: nat)
      requires Valid() && slab in slabs && id in slab.Live() && obj == slab.ObjectAddr(id)
      modifies this`listFree, this`listPartial, this`listFull, slab
      ensures Valid() && slab.Live() == old(slab.Live()) - {id}
      ensures forall s :: s in slabs && s != slab ==> s.Live() == old(s.Live())
      ensures slab.free == id
      ensures if old(slab in listFull) then
          listPartial == [slab] + old(listPartial) && LeftOut(old(listFull), slab, listFull) && listFree == old(listFree)
        else if slab.inuse == 0 then
          listFree == [slab] + old(listFree) && LeftOut(old(listPartial), slab, listPartial) && listFull == old(listFull)
        else
          listFree == old(listFree) && listPartial == old(listPartial) && listFull == old(listFull)
    {
      ValidIsReady();
      ReleaseReady(slab, obj, id);
      ValidIsReady();
    }

    method ReleaseReady(slab: Slab, obj: nat, ghost id: nat)
      requires Ready() && slab in slabs && id in slab.Live() && obj == slab.ObjectAddr(id)
      modifies this`listFree, this`listPartial, this`listFull, slab
      ensures Ready() && slab.Live() == old(slab.Live()) - {id}
      ensures forall s :: s in slabs && s != slab ==> s.Live() == old(s.Live())
      ensures slab.free == id
      ensures if old(slab in listFull) then
          listPartial == [slab] + old(listPartial) && LeftOut(old(listFull), slab, listFull) && listFree == old(listFree)
        else if slab.inuse == 0 then
          listFree == [slab] + old(listFree) && LeftOut(old(listPartial), slab, listPartial) && listFull == old(listFull)
        else
          listFree == old(listFree) && listPartial == old(listPartial) && listFull == old(listFull)
    {
      var inFull := slab in listFull;
      slab.LiveMeansInuse();
      slab.ObjectsApart(id, id);
      GiveBack(slab, (obj - slab.ObjectAddr(0)) / slabSize);
      if inFull {
        FullToPartial(slab);
      } else if slab.inuse == 0 {
        PartialToFree(slab);
      }
    }

    /** Releasing an object of a full slab and allocating again hands out that very object. */
    method ReleaseThenAlloc(slab: Slab, obj: nat, ghost id: nat, page: nat) returns (again: Slab, obj': nat)
      requires Valid() && slab in listFull && slab in slabs && id in slab.Live() && obj == slab.ObjectAddr(id)
      modifies this, slabs
      ensures Valid() && again == slab && obj' == obj && slab.Live() == old(slab.Live())
    {
      Release(slab, obj, id);
      ghost var id';
      again, id', obj' := Alloc(page);
    }

    /** The lists, but for the state of one slab that has just changed. */
    ghost predicate ListsBut(slab: Slab)
      reads this, slabs
    {
      && slabs == Members(listFree) + Members(listPartial) + Members(listFull)
      && NoDup(listFree) && NoDup(listPartial) && NoDup(listFull)
      && Members(listFree) !! Members(listPartial) !! Members(listFull)
      && (forall s :: s in slabs ==> Fits(s))
      && (forall s :: s in slabs && s in listFree && s != slab ==> s.inuse == 0)
      && (forall s :: s in slabs && s in listPartial && s != slab ==>
            s.inuse < slabObjects && (slabObjects >= 2 ==> s.inuse > 0))
      && (forall s :: s in slabs && s in listFull && s != slab ==> s.inuse == slabObjects)
    }

    method FullToPartial(slab: Slab)
      requires ListsBut(slab) && slab in slabs && slab in listFull && slab.inuse == slabObjects - 1
      modifies this`listPartial, this`listFull
      ensures Lists(slabs) && listPartial == [slab] + old(listPartial) && LeftOut(old(listFull), slab, listFull)
    {
      var i := IndexIn(slab, listFull);
      RemoveOne(listFull, i);
      InFront(slab, listPartial);
      listFull := listFull[..i] + listFull[i + 1..];
      listPartial := [slab] + listPartial;
    }

    method PartialToFree(slab: Slab)
      requires ListsBut(slab) && slab in slabs && slab in listPartial && slab.inuse == 0
      modifies this`listFree, this`listPartial
      ensures Lists(slabs) && listFree == [slab] + old(listFree) && LeftOut(old(listPartial), slab, listPartial)
    {
      var i := IndexIn(slab, listPartial);
      RemoveOne(listPartial, i);
      InFront(slab, listFree);
      listPartial := listPartial[..i] + listPartial[i + 1..];
      listFree := [slab] + listFree;
    }

    /** `Slab.Give` on one slab leaves the others alone. */
    method GiveBack(slab: Slab, id: nat)
      requires Ready() && slab in slabs && id in slab.Live()
      modifies slab
      ensures Fits(slab) && slab.Live() == old(slab.Live()) - {id} && slab.inuse == old(slab.inuse) - 1
      ensures slab.free == id
      ensures forall s :: s in slabs && s != slab ==>
        Fits(s) && s.inuse == old(s.inuse) && s.Live() == old(s.Live())
    {
      slab.Give(id);
      assert forall s :: s in slabs && s != slab ==> old(Fits(s));
    }

    /** A new slab, on no list yet, with the next colour. */
    method NewSlab(page: nat) returns (slab: Slab)
      requires Ready() && Unused(page, Bytes(), slabs)
      modifies this`colourNext, this`slabs
      ensures fresh(slab) && slab.addr == page
      ensures slabs == old(slabs) + {slab} && Held(slab) && slab.Live() == {} && slab.free == 0
      ensures slab.colourOffset == old(colourNext) * 64 && colourNext == NextColour(old(colourNext), colourNum)
    {
      EveryColourFits(order, slabObjects, left, slabSize, colourNext);
      ghost var on := slabs;
      slab := new Slab(page, Bytes(), slabSize, slabObjects, colourNext * COLOUR);
      colourNext := NextColour(colourNext, colourNum);
      slabs := slabs + {slab};
      assert slabs - {slab} == on;
      assert Lists(on);
    }

    /** Takes a slab with a free object off its list, a partial one if there is any. */
    method Pick() returns (slab: Slab)
      requires Ready() && (listFree != [] || listPartial != [])
      modifies this`listFree, this`listPartial
      ensures Held(slab)
      ensures if old(listPartial) != []
        then slab == old(listPartial)[0] && listPartial == old(listPartial)[1..] && listFree == old(listFree)
        else slab == old(listFree)[0] && listFree == old(listFree)[1..] && listPartial == old(listPartial)
    {
      if listPartial != [] {
        slab := listPartial[0];
        RemoveFirst(listPartial);
        listPartial := listPartial[1..];
      } else {
        slab := listFree[0];
        RemoveFirst(listFree);
        listFree := listFree[1..];
      }
    }

    /** Puts a slab on the list of its new state. */
    method Place(slab: Slab)
      requires slab in slabs && Lists(slabs - {slab}) && Fits(slab)
      modifies this`listFree, this`listPartial, this`listFull
      ensures Lists(slabs)
      ensures listFull == if slab.inuse == slabObjects then [slab] + old(listFull) else old(listFull)
      ensures listFree == if slab.inuse == 0 && slabObjects > 0 then [slab] + old(listFree) else old(listFree)
      ensures listPartial == if 0 < slab.inuse < slabObjects then [slab] + old(listPartial) else old(listPartial)
    {
      if slab.inuse == slabObjects {
        ToFull(slab);
      } else if slab.inuse == 0 {
        ToFree(slab);
      } else {
        ToPartial(slab);
      }
    }

    method ToFull(slab: Slab)
      requires slab in slabs && Lists(slabs - {slab}) && Fits(slab) && slab.inuse == slabObjects
      modifies this`listFull
      ensures Lists(slabs) && listFull == [slab] + old(listFull)
    {
      InFront(slab, listFull);
      listFull := [slab] + listFull;
    }

    method ToFree(slab: Slab)
      requires slab in slabs && Lists(slabs - {slab}) && Fits(slab) && slab.inuse == 0
      modifies this`listFree
      ensures Lists(slabs) && listFree == [slab] + old(listFree)
    {
      InFront(slab, listFree);
      listFree := [slab] + listFree;
    }

    method ToPartial(slab: Slab)
      requires slab in slabs && Lists(slabs - {slab}) && Fits(slab) && 0 < slab.inuse < slabObjects
      modifies this`listPartial
      ensures Lists(slabs) && listPartial == [slab] + old(listPartial)
    {
      InFront(slab, listPartial);
      listPartial := [slab] + listPartial;
    }
  }

  method IndexIn(x: Slab, s: seq<Slab>) returns (i: nat)
    requires x in s
    ensures i < |s| && s[i] == x
  {
    i := 0;
    while s[i] != x
      invariant i < |s| && x in s[i..]
      decreases |s| - i
    {
      i := i + 1;
    }
  }

  lemma RemoveOne(s: seq<Slab>, i: nat)
    requires i < |s|
    ensures var r := s[..i] + s[i + 1..]; NoDup(s) ==> NoDup(r) && Members(r) == Members(s) - {s[i]}
  {
    var r := s[..i] + s[i + 1..];
    if NoDup(s) {
      forall x | x in s && x != s[i]
        ensures x in r
      {
        var k :| 0 <= k < |s| && s[k] == x;
        assert k != i;
        assert r[if k < i then k else k - 1] == x;
      }
      assert forall k :: 0 <= k < |r| ==> r[k] == s[if k < i then k else k + 1];
    }
  }

  lemma RemoveFirst(s: seq<Slab>)
    requires s != [] && NoDup(s)
    ensures s[0] in Members(s) && NoDup(s[1..]) && Members(s[1..]) == Members(s) - {s[0]}
  {
    RemoveOne(s, 0);
    assert s[..0] + s[1..] == s[1..];
  }

  lemma InFront(x: Slab, s: seq<Slab>)
    ensures x !in s && NoDup(s) ==> NoDup([x] + s)
    ensures Members([x] + s) == Members(s) + {x}
  {
  }

  /** r is s without the one entry x, in order. */
  ghost predicate LeftOut(s: seq<Slab>, x: Slab, r: seq<Slab>) {
    exists i :: 0 <= i < |s| && s[i] == x && r == s[..i] + s[i + 1..]
  }

  ghost predicate NoDup(s: seq<Slab>) {
    forall i, j :: 0 <= i < j < |s| ==> s[i] != s[j]
  }

  ghost function Members(s: seq<Slab>): set<Slab> {
    set x | x in s
  }

  /** The first object of a cache for 64 bytes: behind the structure and 59 indices. */
  method FirstOf64(page: nat) returns (obj: nat)
    ensures obj == page + 264
  {
    var c := new Cache(64);
    c.ValidIsReady();
    HoldsFiftyNine(c.order, c.slabObjects, c.left);
    TimesIsProduct(c.slabObjects, 68);
    var slab;
    ghost var id;
    slab, id, obj := c.Alloc(page);
    slab.ObjectAddrIs(id);
  }

  lemma HoldsFiftyNine(order: nat, objects: nat, left: nat)
    requires 4096 * Pow2(order) == 28 + Times(objects, 68) + left && left < 68
    requires order > 0 ==> 4096 * Pow2(order - 1) < 96
    ensures objects == 59 && left == 56
  {
    TimesIsProduct(objects, 68);
    Pow2Grows(0, if order > 0 then order - 1 else 0);
  }
}
