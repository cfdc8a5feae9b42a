/** The list of caches: best fit, one cache per size class, and `kmalloc` for a rounded size. */
module KMem {
  import opened Bits
  import opened Pages
  import opened Slab
  import opened SlabCache

  datatype Option<T> = None | Some(value: T)

  /** A cache that `get_cache(size)` may choose. */
  predicate Suits(c: Cache, size: nat) {
    size <= c.slabSize <= size + 256
  }

  // ---------- Where slabs go ----------

  /** `place(o)` is where 2^o pages for a new slab would go; no slab is there yet. */
  ghost predicate Vacant(place: nat -> nat, on: set<Slab>) {
    forall o: nat {:trigger place(o)} :: Unused(place(o), PAGE_SIZE * Pow2(o), on)
  }

  /** A slab that a place was used for. */
  ghost predicate PutAt(place: nat -> nat, s: Slab) {
    exists o: nat {:trigger place(o)} :: s.addr == place(o) && s.bytes == PAGE_SIZE * Pow2(o)
  }

  /** Whatever is put at the one place does not meet what is put at the other. */
  ghost predicate PlacesApart(p: nat -> nat, q: nat -> nat) {
    forall o: nat, o': nat {:trigger p(o), q(o')} :: Apart(p(o), PAGE_SIZE * Pow2(o), q(o'), PAGE_SIZE * Pow2(o'))
  }

  lemma StillVacant(before: set<Slab>, after: set<Slab>, place1: nat -> nat, place2: nat -> nat)
    requires Vacant(place2, before) && PlacesApart(place1, place2)
    requires forall s :: s in after ==> s in before || PutAt(place1, s)
    ensures Vacant(place2, after)
  {
    forall o: nat, s | s in after
      ensures Apart(place2(o), PAGE_SIZE * Pow2(o), s.addr, s.bytes)
    {
      assert s in before ==> Unused(place2(o), PAGE_SIZE * Pow2(o), before);
      if s !in before {
        var o': nat :| s.addr == place1(o') && s.bytes == PAGE_SIZE * Pow2(o');
        assert Apart(place1(o'), PAGE_SIZE * Pow2(o'), place2(o), PAGE_SIZE * Pow2(o));
      }
    }
  }

  // ---------- Sets of caches ----------

  /** Valid caches of different sizes.  `owner` tells whose each slab is; no two slabs share a page. */
  ghost predicate AllValid(cs: set<Cache>, owner: map<Slab, Cache>)
    reads cs, owner.Keys
  {
    && (forall c {:trigger Owns(c, owner)} :: c in cs ==> Owns(c, owner) && c.Valid())
    && (forall a, b :: a in cs && b in cs && a != b ==> a.slabSize != b.slabSize)
    && (forall s :: s in owner ==> owner[s] in cs)
    && PagesApart(owner.Keys)
  }

  ghost predicate Owns(c: Cache, owner: map<Slab, Cache>)
    reads c
    ensures Owns(c, owner) ==> c.slabs <= owner.Keys
  {
    AreOf(c, c.slabs, owner)
  }

  /** These are the slabs of the cache. */
  ghost predicate AreOf(c: Cache, slabs: set<Slab>, owner: map<Slab, Cache>) {
    && (forall s :: s in slabs ==> s in owner && owner[s] == c)
    && (forall s :: s in owner && owner[s] == c ==> s in slabs)
  }

  /** One more slab, or one that is there already. */
  lemma PagesStayApart(on: set<Slab>, slab: Slab)
    requires PagesApart(on) && (slab in on || Unused(slab.addr, slab.bytes, on))
    ensures PagesApart(on + {slab})
  {
  }

  /** The slabs of one cache, now that slab has joined cache c. */
  lemma OwnsStill(d: Cache, c: Cache, before: set<Slab>, owner: map<Slab, Cache>, slab: Slab)
    requires AreOf(d, before, owner)
    requires d.slabs == if d == c then before + {slab} else before
    requires slab in owner ==> owner[slab] == c
    ensures Owns(d, owner[slab := c])
  {
  }

  /** `Cache.Alloc` on one cache leaves the others alone. */
  method AllocBeside(c: Cache, ghost others: set<Cache>, ghost rest: set<Slab>, page: nat)
    returns (slab: Slab, ghost id: nat, obj: nat)
    requires c.Valid() && c !in others && Unused(page, c.Bytes(), c.slabs) && rest !! c.slabs
    requires forall d :: d in others ==> d.Valid() && d.slabs !! c.slabs
    modifies c, c.slabs
    ensures c.Valid() && c.slabs == old(c.slabs) + {slab} && slab.slabSize == c.slabSize
    ensures id in slab.Live() && obj == slab.ObjectAddr(id)
    ensures if slab in old(c.slabs) then id !in old(slab.Live()) && slab.Live() == old(slab.Live()) + {id}
      else fresh(slab) && slab.addr == page && slab.bytes == c.Bytes() && slab.Live() == {id}
    ensures Drawn(old(c.Queued()), c.Queued(), slab, slab.inuse == c.slabObjects)
    ensures slab in old(c.slabs) ==> id == old(slab.free)
    ensures forall s :: (s in old(c.slabs) && s != slab) || s in rest ==> s.Live() == old(s.Live())
    ensures forall d :: d in others ==> d.Valid() && d.slabs == old(d.slabs)
  {
    slab, id, obj := c.Alloc(page);
    assert forall d :: d in others ==> d.Valid() == old(d.Valid());
  }

  method ReleaseBeside(c: Cache, ghost others: set<Cache>, ghost rest: set<Slab>, slab: Slab, obj: nat, ghost id: nat)
    requires rest !! c.slabs && c.Valid() && c !in others && slab in c.slabs && id in slab.Live() && obj == slab.ObjectAddr(id)
    requires forall d :: d in others ==> d.Valid() && d.slabs !! c.slabs
    modifies c, slab
    ensures c.Valid() && c.slabs == old(c.slabs) && slab.Live() == old(slab.Live()) - {id}
    ensures Refiled(old(c.Queued()), c.Queued(), slab, slab.inuse == 0) && slab.free == id
    ensures forall s :: (s in c.slabs && s != slab) || s in rest ==> s.Live() == old(s.Live())
    ensures forall d :: d in others ==> d.Valid() && d.slabs == old(d.slabs)
  {
    c.Release(slab, obj, id);
    assert forall d :: d in others ==> d.Valid() == old(d.Valid());
  }

  lemma OwnedApart(c: Cache, d: Cache, owner: map<Slab, Cache>)
    requires Owns(c, owner) && Owns(d, owner) && c != d
    ensures c.slabs !! d.slabs
  {
  }

  /** `Cache.Alloc` on one of several caches. */
  method AllocAmong(c: Cache, ghost cs: set<Cache>, ghost owner: map<Slab, Cache>, page: nat)
    returns (slab: Slab, ghost id: nat, obj: nat)
    requires c in cs && AllValid(cs, owner) && Unused(page, c.Bytes(), owner.Keys)
    modifies c, owner.Keys
    ensures AllValid(cs, owner[slab := c]) && slab.slabSize == c.slabSize
    ensures id in slab.Live() && obj == slab.ObjectAddr(id)
    ensures if slab in owner then owner[slab] == c && id !in old(slab.Live()) && slab.Live() == old(slab.Live()) + {id}
      else fresh(slab) && slab.addr == page && slab.bytes == c.Bytes() && slab.Live() == {id}
    ensures Drawn(old(c.Queued()), c.Queued(), slab, slab.inuse == c.slabObjects)
    ensures slab in owner ==> id == old(slab.free)
    ensures forall s :: s in owner && s != slab ==> s.Live() == old(s.Live())
  {
    ghost var h := SlabsByCache(cs);
    TakeApart(c, cs, owner);
    slab, id, obj := AllocBeside(c, cs - {c}, owner.Keys - c.slabs, page);
    PutTogether(c, cs, h, owner, slab);
  }

  ghost function SlabsByCache(cs: set<Cache>): map<Cache, set<Slab>>
    reads cs
  {
    map c | c in cs :: c.slabs
  }

  /** One cache and the others. */
  lemma TakeApart(c: Cache, cs: set<Cache>, owner: map<Slab, Cache>)
    requires c in cs && AllValid(cs, owner)
    ensures c.Valid() && AreOf(c, c.slabs, owner)
    ensures forall d :: d in cs - {c} ==> d.Valid() && d.slabs !! c.slabs && AreOf(d, d.slabs, owner)
  {
    var known := Owns(c, owner);
    forall d | d in cs - {c}
      ensures d.Valid() && d.slabs !! c.slabs && AreOf(d, d.slabs, owner)
    {
      var known' := Owns(d, owner);
      OwnedApart(c, d, owner);
    }
  }

  /** The cache, which may have gained a slab, and the others as they were. */
  lemma PutTogether(c: Cache, cs: set<Cache>, h: map<Cache, set<Slab>>, owner: map<Slab, Cache>, slab: Slab)
    requires c in cs && h.Keys == cs && c.Valid() && c.slabs == h[c] + {slab}
    requires forall d :: d in cs - {c} ==> d.Valid() && d.slabs == h[d]
    requires forall d :: d in cs ==> AreOf(d, h[d], owner)
    requires forall a, b :: a in cs && b in cs && a != b ==> a.slabSize != b.slabSize
    requires forall s :: s in owner ==> owner[s] in cs
    requires PagesApart(owner.Keys) && (slab in owner ==> owner[slab] == c)
    requires slab !in owner ==> Unused(slab.addr, slab.bytes, owner.Keys)
    ensures AllValid(cs, owner[slab := c])
  {
    var owner' := owner[slab := c];
    forall d | d in cs
      ensures Owns(d, owner') && d.Valid()
    {
      OwnsStill(d, c, h[d], owner, slab);
      assert d == c || d in cs - {c};
    }
    PagesStayApart(owner.Keys, slab);
    assert owner'.Keys == owner.Keys + {slab};
  }

  /** A new cache without slabs, of a size of its own, fits in with the others. */
  lemma FitsIn(cs: set<Cache>, c: Cache, owner: map<Slab, Cache>)
    requires AllValid(cs, owner) && c.Valid() && c.slabs == {} && forall d :: d in cs ==> d.slabSize != c.slabSize
    ensures AllValid(cs + {c}, owner)
  {
    forall d | d in cs + {c}
      ensures Owns(d, owner) && d.Valid()
    {
      assert d in cs ==> Owns(d, owner);
    }
  }

  /** `Cache.Release` on one of several caches. */
  method ReleaseAmong(c: Cache, ghost cs: set<Cache>, ghost owner: map<Slab, Cache>, slab: Slab, obj: nat, ghost id: nat)
    requires c in cs && AllValid(cs, owner)
    requires slab in owner && owner[slab] == c && id in slab.Live() && obj == slab.ObjectAddr(id)
    modifies c, slab
    ensures AllValid(cs, owner) && slab.Live() == old(slab.Live()) - {id}
    ensures Refiled(old(c.Queued()), c.Queued(), slab, slab.inuse == 0) && slab.free == id
    ensures forall s :: s in owner && s != slab ==> s.Live() == old(s.Live())
  {
    ghost var h := SlabsByCache(cs);
    TakeApart(c, cs, owner);
    ReleaseBeside(c, cs - {c}, owner.Keys - c.slabs, slab, obj, id);
    PutTogether(c, cs, h, owner, slab);
    assert owner[slab := c] == owner;
  }

  /** What a call that hands out object `id` of `slab` adds to the live objects of s. */
  function Added(s: Slab, slab: Slab?, id: nat): set<nat> {
    if s == slab then {id} else {}
  }

  // ---------- The list of caches ----------

  class KMem {
    var caches: seq<Cache>          // the root cache first, then the others, newest first

    ghost var owner: map<Slab, Cache>  // the slabs of all caches

    ghost function All(): set<Cache>
      reads this
    {
      set c | c in caches
    }

    ghost function Slabs(): set<Slab>
      reads this
    {
      owner.Keys
    }

    /**
      There is one cache per size, the first of them for the cache structures themselves, and no two
      slabs of any caches share a page.
     */
    ghost predicate Valid()
      reads this, caches, Slabs()
    {
      && caches != [] && caches[0].slabSize == 72 && AllValid(All(), owner)
      && (forall i, j :: 0 <= i < j < |caches| ==> caches[i] != caches[j])
    }

    constructor ()
      ensures Valid() && |caches| == 1
    {
      var root := new Cache(SLABCACHE_T);
      caches, owner := [root], map[];
    }

    /** Best fit: the smallest cache that is large enough and wastes at most 256 bytes. */
    method GetCache(size: nat) returns (best: Option<nat>)
      requires caches != []
      ensures best == None <==> forall i :: 0 <= i < |caches| ==> !Suits(caches[i], size)
      ensures best.Some? ==> best.value < |caches| && Suits(caches[best.value], size)
      ensures best.Some? ==> forall i :: 0 <= i < |caches| && size <= caches[i].slabSize ==>
        caches[best.value].slabSize <= caches[i].slabSize
    {
      best := None;
      var delta := SLAB_MAX_SIZE;
      var i := 0;
      while i < |caches|
        invariant 0 <= i <= |caches|
        invariant best == None ==> delta == SLAB_MAX_SIZE && forall k :: 0 <= k < i ==> !Suits(caches[k], size)
        invariant best.Some? ==> best.value < i && Suits(caches[best.value], size)
        invariant best.Some? ==> delta == caches[best.value].slabSize - size
        invariant best.Some? ==> forall k :: 0 <= k < i && size <= caches[k].slabSize ==>
          caches[best.value].slabSize <= caches[k].slabSize
      {
        if caches[i].slabSize >= size && caches[i].slabSize - size <= delta {
          delta, best := caches[i].slabSize - size, Some(i);
        }
        i := i + 1;
      }
    }

    /** An object that the k-th cache has handed out, and its address. */
    ghost predicate Given(k: nat, slab: Slab?, id: nat, obj: nat)
      reads this, caches, Slabs()
    {
      && k < |caches| && slab != null && slab in Slabs() && owner[slab] == caches[k]
      && slab.slabSize == caches[k].slabSize && id in slab.Live() && obj == slab.ObjectAddr(id)
    }

    /** Its bytes meet no other live object of any cache, and no header or `bufctl`. */
    lemma GivenIsUndisturbed(k: nat, slab: Slab, id: nat, obj: nat)
      requires Valid() && Given(k, slab, id, obj)
      ensures Undisturbed(slab, id, Slabs())
    {
      forall s | s in Slabs()
        ensures s.Roomy()
      {
        var c := owner[s];
        assert c in All() && Owns(c, owner);
        c.SlabsFit();
      }
      LiveUndisturbed(slab, id, Slabs());
    }

    /** `Cache.Alloc` on the k-th cache. */
    method AllocFrom(k: nat, place: nat -> nat) returns (slab: Slab, ghost id: nat, obj: nat)
      requires Valid() && k < |caches| && Vacant(place, Slabs())
      modifies this`owner, caches[k], Slabs()
      ensures Valid() && Given(k, slab, id, obj)
      ensures Drawn(old(caches[k].Queued()), caches[k].Queued(), slab, slab.inuse == caches[k].slabObjects)
      ensures slab in old(Slabs()) ==> id !in old(slab.Live()) && id == old(slab.free)
      ensures forall s :: s in old(Slabs()) ==> s in Slabs() && s.Live() == old(s.Live()) + Added(s, slab, id)
      ensures forall s :: s in Slabs() && s !in old(Slabs()) ==> fresh(s) && PutAt(place, s) && s == slab && s.Live() == {id}
    {
      var c := caches[k];
      var page := place(c.order);
      slab, id, obj := AllocAmong(c, All(), owner, page);
      assert slab !in owner ==> slab.addr == place(c.order) && slab.bytes == PAGE_SIZE * Pow2(c.order);
      owner := owner[slab := c];
    }

    /**
      `cache_alloc`: no object unless the page allocator is in place and some cache suits the size.  The
      object's bytes meet no live object of any cache, and no header or `bufctl`.
     */
    method CacheAlloc(size: nat, listAllocator: bool, place: nat -> nat)
      returns (obj: Option<nat>, ghost k: nat, ghost slab: Slab?, ghost id: nat)
      requires Valid() && Vacant(place, Slabs())
      modifies this`owner, caches, Slabs()
      ensures Valid() && caches == old(caches)
      ensures obj.Some? <==> listAllocator && exists i :: 0 <= i < |caches| && Suits(caches[i], size)
      ensures obj.Some? ==>
        && k < |caches| && Suits(caches[k], size)
        && (forall i :: 0 <= i < |caches| && size <= caches[i].slabSize ==> caches[k].slabSize <= caches[i].slabSize)
      ensures obj.Some? ==> Given(k, slab, id, obj.value) && Undisturbed(slab, id, Slabs())
      ensures obj.Some? ==> Drawn(old(caches[k].Queued()), caches[k].Queued(), slab, slab.inuse == caches[k].slabObjects)
      ensures forall c :: c in caches && (obj.Some? ==> c != caches[k]) ==> c.Queued() == old(c.Queued())
      ensures obj.Some? && slab in old(Slabs()) ==> id !in old(slab.Live()) && id == old(slab.free)
      ensures forall s :: s in old(Slabs()) ==> s in Slabs() && s.Live() == old(s.Live()) + Added(s, slab, id)
      ensures forall s :: s in Slabs() && s !in old(Slabs()) ==> fresh(s) && PutAt(place, s) && s == slab && s.Live() == {id}
      ensures obj == None ==> slab == null
    {
      obj, k, slab, id := None, 0, null, 0;
      if !listAllocator { return; }
      var best := GetCache(size);
      if best == None { return; }
      k := best.value;
      var addr;
      slab, id, addr := AllocFrom(best.value, place);
      obj := Some(addr);
      GivenIsUndisturbed(k, slab, id, addr);
    }

    /** `cache_free`, the owning slab given.  No other object is affected. */
    method CacheFree(k: nat, slab: Slab, obj: nat, ghost id: nat)
      requires Valid() && Given(k, slab, id, obj)
      modifies caches[k], slab
      ensures Valid() && Slabs() == old(Slabs()) && slab.Live() == old(slab.Live()) - {id}
      ensures Refiled(old(caches[k].Queued()), caches[k].Queued(), slab, slab.inuse == 0) && slab.free == id
      ensures forall s :: s in Slabs() && s != slab ==> s.Live() == old(s.Live())
    {
      ReleaseAmong(caches[k], All(), owner, slab, obj, id);
    }

    /** Freeing an object of a full slab and asking for its size again returns that very object. */
    method FreeThenAlloc(k: nat, slab: Slab, obj: nat, ghost id: nat, place: nat -> nat) returns (again: Option<nat>)
      requires Valid() && Given(k, slab, id, obj) && slab in caches[k].listFull && Vacant(place, Slabs())
      modifies this`owner, caches, Slabs()
      ensures Valid() && again == Some(obj)
    {
      CacheFree(k, slab, obj, id);
      ghost var j, slab', id';
      assert Suits(caches[k], caches[k].slabSize);
      again, j, slab', id' := CacheAlloc(caches[k].slabSize, true, place);
      SameSizeSameCache(j, k);
    }

    lemma SameSizeSameCache(j: nat, k: nat)
      requires Valid() && j < |caches| && k < |caches| && caches[j].slabSize == caches[k].slabSize
      ensures j == k
    {
      assert caches[j] in All() && caches[k] in All();
    }

    /**
      `new_cache`: the structure is an object of the root cache, and is linked in just after it.  There is
      none without the page allocator.
     */
    method NewCache(size: nat, listAllocator: bool, place: nat -> nat)
      returns (c: Cache?, home: Option<nat>, ghost slab: Slab?, ghost id: nat)
      requires Valid() && 0 < size && size + OBJCTL_T + SLAB_T <= INT_LIMIT && Vacant(place, Slabs())
      requires !HasSize(caches, size)
      modifies this, this.caches, Slabs()
      ensures Valid() && (c == null <==> !listAllocator) && (c == null ==> caches == old(caches))
      ensures c != null ==>
        && fresh(c) && c.slabSize == size && c.slabs == {} && caches == [old(caches[0]), c] + old(caches[1..])
        && home.Some? && Given(0, slab, id, home.value) && (slab in old(Slabs()) ==> id !in old(slab.Live()))
      ensures forall s :: s in old(Slabs()) ==> s in Slabs() && s.Live() == old(s.Live()) + Added(s, slab, id)
      ensures forall s :: s in Slabs() && s !in old(Slabs()) ==> fresh(s) && PutAt(place, s) && s == slab && s.Live() == {id}
      ensures c == null ==> slab == null
    {
      home, slab, id := RootAlloc(listAllocator, place);
      c := null;
      if home != None { c := AddCache(size, slab, id, home.value); }
    }

    /** An object of the root cache. */
    method RootAlloc(listAllocator: bool, place: nat -> nat) returns (obj: Option<nat>, ghost slab: Slab?, ghost id: nat)
      requires Valid() && Vacant(place, Slabs())
      modifies this`owner, caches, Slabs()
      ensures Valid() && caches == old(caches)
      ensures if listAllocator then obj.Some? && Given(0, slab, id, obj.value) else obj == None && slab == null
      ensures slab in old(Slabs()) ==> id !in old(slab.Live())
      ensures forall s :: s in old(Slabs()) ==> s in Slabs() && s.Live() == old(s.Live()) + Added(s, slab, id)
      ensures forall s :: s in Slabs() && s !in old(Slabs()) ==> fresh(s) && PutAt(place, s) && s == slab && s.Live() == {id}
    {
      assert Suits(caches[0], SLABCACHE_T);
      ghost var k;
      obj, k, slab, id := CacheAlloc(SLABCACHE_T, listAllocator, place);
      if obj != None { SameSizeSameCache(k, 0); }
    }

    method AddCache(size: nat, ghost slab: Slab?, ghost id: nat, ghost obj: nat) returns (c: Cache)
      requires Valid() && 0 < size && size + OBJCTL_T + SLAB_T <= INT_LIMIT && !HasSize(caches, size)
      requires Given(0, slab, id, obj)
      modifies this`caches
      ensures Valid() && caches == [old(caches[0]), c] + old(caches[1..]) && owner == old(owner)
      ensures fresh(c) && c.slabSize == size && c.slabs == {} && Given(0, slab, id, obj)
    {
      c := new Cache(size);
      Link(c, slab, id, obj);
    }

    method Link(c: Cache, ghost slab: Slab?, ghost id: nat, ghost obj: nat)
      requires Valid() && c.Valid() && c.slabs == {} && c !in caches && !HasSize(caches, c.slabSize)
      requires Given(0, slab, id, obj)
      modifies this`caches
      ensures Valid() && caches == [old(caches[0]), c] + old(caches[1..])
      ensures owner == old(owner) && Given(0, slab, id, obj)
    {
      ghost var before := caches;
      caches := [caches[0], c] + caches[1..];
      assert forall i :: 0 <= i < |caches| ==> caches[i] == if i == 0 then before[0] else if i == 1 then c else before[i - 1];
      assert before == [before[0]] + before[1..];
      assert All() == old(All()) + {c};
      FitsIn(old(All()), c, owner);
    }

    predicate HasSize(cs: seq<Cache>, size: nat) {
      exists c :: c in cs && c.slabSize == size
    }

    /** The caches are those of before, with one of this size in second place if there was none. */
    ghost predicate Extended(before: seq<Cache>, size: nat)
      reads this
    {
      if HasSize(before, size) then
        caches == before
      else
        && |caches| == |before| + 1 && before != [] && caches[1].slabSize == size
        && caches == [before[0], caches[1]] + before[1..]
    }

    /**
      The first half of `kmalloc`: makes sure that there is a cache of exactly this size.  The name of a
      new cache is written through the pointer that `new_cache` returned, so there has to be one.
     */
    method EnsureCache(size: nat, listAllocator: bool, place: nat -> nat) returns (ghost k: nat, ghost root: Slab?, ghost rid: nat)
      requires Valid() && 0 < size && size + OBJCTL_T + SLAB_T <= INT_LIMIT && Vacant(place, Slabs())
      requires listAllocator || HasSize(caches, size)
      modifies this, this.caches, Slabs()
      ensures Valid() && k < |caches| && caches[k].slabSize == size
      ensures forall s :: s in old(Slabs()) ==> s in Slabs() && s.Live() == old(s.Live()) + Added(s, root, rid)
      ensures forall s :: s in Slabs() && s !in old(Slabs()) ==> fresh(s) && PutAt(place, s) && s == root && s.Live() == {rid}
      ensures HasSize(old(caches), size) <==> root == null
      ensures root != null ==> root in Slabs() && owner[root] == caches[0] && (root in old(Slabs()) ==> rid !in old(root.Live()))
      ensures forall c :: c in caches ==> c in old(caches) || fresh(c)
      ensures Extended(old(caches), size)
      ensures HasSize(old(caches), size) ==>
        && unchanged(this)
        && (forall c :: c in old(caches) ==> unchanged(c)) && (forall s :: s in old(Slabs()) ==> unchanged(s))
    {
      var best := GetCache(size);
      if best == None || caches[best.value].slabSize != size {
        NoneOfSize(size, best);
        var c;
        var home;
        c, home, root, rid := NewCache(size, listAllocator, place);
        k := 1;
      } else {
        k, root, rid := best.value, null, 0;
      }
    }

    /**
      `kmalloc`, for a size already rounded to a power of two: the object comes from the cache of
      exactly that size, which is created if it is not there yet.  `place1` and `place2` are where pages
      would go for the cache structure and for the object.
     */
    method KMalloc(size: nat, listAllocator: bool, place1: nat -> nat, place2: nat -> nat)
      returns (obj: Option<nat>, ghost k: nat, ghost slab: Slab?, ghost id: nat, ghost root: Slab?, ghost rid: nat)
      requires Valid() && 0 < size && size + OBJCTL_T + SLAB_T <= INT_LIMIT
      requires Vacant(place1, Slabs()) && Vacant(place2, Slabs()) && PlacesApart(place1, place2)
      requires listAllocator || HasSize(caches, size)
      modifies this, this.caches, Slabs()
      ensures Valid() && (obj.Some? <==> listAllocator)
      ensures Extended(old(caches), size)
      ensures obj.Some? ==> Given(k, slab, id, obj.value) && caches[k].slabSize == size && Undisturbed(slab, id, Slabs())
      ensures obj.Some? && HasSize(old(caches), size) ==>
        Drawn(old(caches[k].Queued()), caches[k].Queued(), slab, slab.inuse == caches[k].slabObjects)
      ensures obj.Some? && slab in old(Slabs()) ==>
        id !in old(slab.Live()) && (HasSize(old(caches), size) ==> id == old(slab.free))
      ensures HasSize(old(caches), size) <==> root == null
      ensures root != null && root in old(Slabs()) ==> rid !in old(root.Live())
      ensures forall s :: s in old(Slabs()) ==>
        s in Slabs() && s.Live() == old(s.Live()) + Added(s, root, rid) + Added(s, slab, id)
      ensures forall s :: s in Slabs() && s !in old(Slabs()) ==> s == slab || s == root
      ensures root != null && root !in old(Slabs()) ==> root.Live() == {rid} + Added(root, slab, id)
      ensures slab != null && slab !in old(Slabs()) && slab != root ==> slab.Live() == {id}
    {
      k, root, rid := EnsureCache(size, listAllocator, place1);
      assert forall i :: 0 <= i < |caches| ==> caches[i] in old(caches) || fresh(caches[i]);
      StillVacant(old(Slabs()), Slabs(), place1, place2);
      ghost var q, mid := caches[k].Queued(), Slabs();
      obj, slab, id := AllocExact(size, listAllocator, place2, k);
      assert obj.Some? ==> Drawn(q, caches[k].Queued(), slab, slab.inuse == caches[k].slabObjects);
      assert forall s :: s in Slabs() ==> s in mid || s == slab;
    }

    /** The second half: there is a cache of exactly this size by now. */
    method AllocExact(size: nat, listAllocator: bool, place: nat -> nat, ghost k: nat)
      returns (obj: Option<nat>, ghost slab: Slab?, ghost id: nat)
      requires Valid() && k < |caches| && caches[k].slabSize == size && Vacant(place, Slabs())
      modifies this`owner, caches, Slabs()
      ensures Valid() && caches == old(caches)
      ensures if listAllocator then obj.Some? && Given(k, slab, id, obj.value) && Undisturbed(slab, id, Slabs())
        else obj == None && slab == null
      ensures listAllocator ==> Drawn(old(caches[k].Queued()), caches[k].Queued(), slab, slab.inuse == caches[k].slabObjects)
      ensures slab in old(Slabs()) ==> id !in old(slab.Live()) && id == old(slab.free)
      ensures forall s :: s in old(Slabs()) ==> s in Slabs() && s.Live() == old(s.Live()) + Added(s, slab, id)
      ensures forall s :: s in Slabs() && s !in old(Slabs()) ==> s == slab && s.Live() == {id}
    {
      assert Suits(caches[k], size);
      ghost var j;
      obj, j, slab, id := CacheAlloc(size, listAllocator, place);
      if obj != None { SameSizeSameCache(j, k); }
    }

    lemma NoneOfSize(size: nat, best: Option<nat>)
      requires best == None ==> forall i :: 0 <= i < |caches| ==> !Suits(caches[i], size)
      requires best.Some? ==> best.value < |caches| && size < caches[best.value].slabSize
      requires best.Some? ==> forall i :: 0 <= i < |caches| && size <= caches[i].slabSize ==>
        caches[best.value].slabSize <= caches[i].slabSize
      ensures !HasSize(caches, size)
    {
      forall c | c in caches
        ensures c.slabSize != size
      {
        var i :| 0 <= i < |caches| && caches[i] == c;
        assert caches[i].slabSize == size ==> Suits(caches[i], size);
      }
    }
  }
}
