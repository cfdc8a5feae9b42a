/**
  The slab allocator.  The free objects of a slab form a chain inside `bufctl`: `free` is the first
  free id, `bufctl[id]` the next one, and the number of objects ends the chain.  A cache keeps its
  slabs on three lists by how full they are.
 */
module Slab {
  import opened Bits

  const SLAB_T: nat := 28           // sizeof(slab_t)
  const OBJCTL_T: nat := 4          // sizeof(kmem_objctl_t)
  const SLABCACHE_T: nat := 72      // sizeof(slabcache_t)
  const SLAB_MAX_SIZE: nat := 256
  const COLOUR: nat := 64

  /** `n * size`, added up one at a time: it keeps products of variables out of the validity predicates. */
  function Times(n: nat, size: nat): nat {
    if n == 0 then 0 else Times(n - 1, size) + size
  }

  lemma {:induction false} TimesIsProduct(n: nat, size: nat)
    ensures Times(n, size) == n * size
  {
    if n > 0 {
      TimesIsProduct(n - 1, size);
      assert n * size == (n - 1) * size + size;
    }
  }

  /** Two ranges of bytes, by start and length, that do not meet. */
  predicate Apart(a: nat, n: nat, b: nat, m: nat) {
    a + n <= b || b + m <= a
  }

  class Slab {
    const addr: nat                 // where its pages start
    const bytes: nat                // and how far they reach
    const slabSize: nat             // size of one object
    const slabObjects: nat          // number of objects
    const colourOffset: nat
    var bufctl: seq<nat>            // the next free id, by id
    var free: nat
    var inuse: nat
    ghost var chain: seq<nat>       // the free ids, first one first

    /** Following `bufctl` from `free` visits `chain`, once each, and ends at the number of objects. */
    ghost predicate Valid()
      reads this
    {
      && |bufctl| == slabObjects
      && (forall i :: 0 <= i < |chain| ==> chain[i] < slabObjects)
      && (forall i, j :: 0 <= i < j < |chain| ==> chain[i] != chain[j])
      && free == At(0)
      && (forall i :: 0 <= i < |chain| ==> bufctl[chain[i]] == At(i + 1))
      && inuse + |chain| == slabObjects
    }

    /** The bytes of the slab structure and of `bufctl`, which come first. */
    function Header(): nat {
      SLAB_T + slabObjects * OBJCTL_T
    }

    /** The address of an object: objects + id * slab_size. */
    function ObjectAddr(id: nat): nat {
      addr + Header() + colourOffset + id * slabSize
    }

    /** The address in full: the 28 bytes of `slab_t`, 4 for each index of `bufctl`, the colour, the objects. */
    lemma ObjectAddrIs(id: nat)
      ensures ObjectAddr(id) == addr + 28 + slabObjects * 4 + colourOffset + id * slabSize
    {
    }

    /** Header, colour offset and objects fit in the pages. */
    predicate Roomy() {
      Header() + colourOffset + Times(slabObjects, slabSize) <= bytes
    }

    lemma ObjectInside(id: nat)
      requires Roomy() && id < slabObjects
      ensures addr + Header() <= ObjectAddr(id) && ObjectAddr(id) + slabSize <= addr + bytes
    {
      TimesIsProduct(slabObjects, slabSize);
      NextStarts(id, slabObjects, slabSize);
    }

    /** Objects do not overlap, and the id is recovered from the address. */
    lemma ObjectsApart(id: nat, other: nat)
      ensures id != other ==> Apart(ObjectAddr(id), slabSize, ObjectAddr(other), slabSize)
      ensures slabSize > 0 ==> ObjectAddr(id) >= ObjectAddr(0) && (ObjectAddr(id) - ObjectAddr(0)) / slabSize == id
    {
      if id < other { NextStarts(id, other, slabSize); }
      if other < id { NextStarts(other, id, slabSize); }
      if slabSize > 0 { ModUnique(id * slabSize, slabSize, id, 0); }
    }

    ghost function At(i: nat): nat
      requires i <= |chain|
      reads this
    {
      if i < |chain| then chain[i] else slabObjects
    }

    /** The objects handed out. */
    ghost function Live(): (s: set<nat>)
      reads this
      ensures forall id: nat :: id in s <==> id < slabObjects && id !in chain
    {
      set id: nat | id < slabObjects && id !in chain
    }

    /** A new slab: every object free, in order. */
    constructor (addr: nat, bytes: nat, slabSize: nat, slabObjects: nat, colourOffset: nat)
      ensures Valid() && Live() == {} && inuse == 0 && chain == InOrder(slabObjects)
      ensures this.addr == addr && this.bytes == bytes && this.slabSize == slabSize && this.slabObjects == slabObjects
      ensures this.colourOffset == colourOffset
    {
      this.addr, this.bytes, this.colourOffset := addr, bytes, colourOffset;
      this.slabSize, this.slabObjects := slabSize, slabObjects;
      bufctl := seq(slabObjects, _ => 0);
      free, inuse := 0, 0;
      chain := InOrder(slabObjects);
      new;
      var i := 0;
      while i < slabObjects
        invariant 0 <= i <= slabObjects
        invariant |bufctl| == slabObjects && forall k :: 0 <= k < i ==> bufctl[k] == k + 1
        invariant free == 0 == inuse && chain == InOrder(slabObjects)
      {
        bufctl := bufctl[i := i + 1];
        i := i + 1;
      }
      InOrderHasAll(slabObjects);
      assert Live() == {};
    }

    /** Hands out the object at `free`, which is not live. */
    method Take() returns (id: nat)
      requires Valid() && inuse < slabObjects
      modifies this
      ensures Valid() && id == old(free) && id < slabObjects && id !in old(Live())
      ensures Live() == old(Live()) + {id} && inuse == old(inuse) + 1
      ensures bufctl == old(bufctl) && free == bufctl[id] && chain == old(chain[1..])
    {
      id := free;
      free := bufctl[free];
      inuse := inuse + 1;
      chain := chain[1..];
    }

    /** Takes back a live object. */
    method Give(id: nat)
      requires Valid() && id in Live()
      modifies this
      ensures Valid() && Live() == old(Live()) - {id} && inuse == old(inuse) - 1
      ensures free == id && bufctl == old(bufctl)[id := old(free)] && chain == [id] + old(chain)
    {
      assert id !in chain;
      LiveMeansInuse();
      bufctl := bufctl[id := free];
      free := id;
      inuse := inuse - 1;
      chain := [id] + chain;
    }

    /** A chain with a live id beside it does not use up all the ids. */
    lemma LiveMeansInuse()
      requires Valid() && Live() != {}
      ensures inuse > 0
    {
      if inuse == 0 {
        var id :| id in Live();
        ChainCount(chain);
        Subset(Elements(chain), Ids(slabObjects) - {id});
        assert false;
      }
    }

    /** Taking an object and giving it back restores the slab exactly. */
    method TakeThenGive() returns (id: nat)
      requires Valid() && inuse < slabObjects
      modifies this
      ensures Valid() && free == old(free) && inuse == old(inuse) && bufctl == old(bufctl)
    {
      id := Take();
      Give(id);
    }
  }

  lemma NextStarts(a: nat, b: nat, size: nat)
    requires a < b
    ensures a * size + size <= b * size
  {
    MulAtLeast(size, b - a);
    assert b * size == a * size + size * (b - a);
  }

  // ---------- Slabs in memory ----------

  /** No two slabs share a page. */
  ghost predicate PagesApart(on: set<Slab>) {
    forall s, t :: s in on && t in on && s != t ==> Apart(s.addr, s.bytes, t.addr, t.bytes)
  }

  /** The n bytes at a are in no slab. */
  ghost predicate Unused(a: nat, n: nat, on: set<Slab>) {
    forall s :: s in on ==> Apart(a, n, s.addr, s.bytes)
  }

  /**
    The bytes of the object meet no other live object of these slabs, and neither the 28-byte structure that
    a slab starts with nor the 4-byte words of `bufctl` behind it.
   */
  ghost predicate Undisturbed(slab: Slab, id: nat, on: set<Slab>)
    reads on
  {
    && (forall t, i :: t in on && i in t.Live() && (t != slab || i != id) ==>
          Apart(slab.ObjectAddr(id), slab.slabSize, t.ObjectAddr(i), t.slabSize))
    && (forall t :: t in on ==> Apart(slab.ObjectAddr(id), slab.slabSize, t.addr, 28 + t.slabObjects * 4))
  }

  lemma LiveUndisturbed(slab: Slab, id: nat, on: set<Slab>)
    requires PagesApart(on) && slab in on && id < slab.slabObjects && forall t :: t in on ==> t.Roomy()
    ensures Undisturbed(slab, id, on)
  {
    slab.ObjectInside(id);
    forall t, i | t in on && i in t.Live() && (t != slab || i != id)
      ensures Apart(slab.ObjectAddr(id), slab.slabSize, t.ObjectAddr(i), t.slabSize)
    {
      t.ObjectInside(i);
      if t == slab { slab.ObjectsApart(id, i); }
    }
  }

  /** Word i of the `bufctl` of any slab, and the structure in front of it. */
  lemma MetadataKept(slab: Slab, id: nat, on: set<Slab>, t: Slab, i: nat)
    requires Undisturbed(slab, id, on) && t in on && i < t.slabObjects
    ensures var a := slab.addr + 28 + slab.slabObjects * 4 + slab.colourOffset + id * slab.slabSize;
      && Apart(a, slab.slabSize, t.addr, 28)
      && Apart(a, slab.slabSize, t.addr + 28 + i * 4, 4)
  {
    slab.ObjectAddrIs(id);
  }

  ghost function InOrder(n: nat): (s: seq<nat>)
    ensures |s| == n && forall i :: 0 <= i < n ==> s[i] == i
  {
    seq(n, i => i)
  }

  lemma InOrderHasAll(n: nat)
    ensures forall id: nat :: id < n ==> id in InOrder(n)
  {
    forall id: nat | id < n
      ensures id in InOrder(n)
    {
      assert InOrder(n)[id] == id;
    }
  }

  ghost function Ids(n: nat): (s: set<nat>)
    ensures |s| == n && forall i: nat :: i in s <==> i < n
  {
    if n == 0 then {} else Ids(n - 1) + {n - 1}
  }

  ghost function Elements(c: seq<nat>): (s: set<nat>)
    ensures forall x: nat :: x in s <==> x in c
  {
    if c == [] then {} else {c[0]} + Elements(c[1..])
  }

  lemma {:induction false} ChainCount(c: seq<nat>)
    requires forall i, j :: 0 <= i < j < |c| ==> c[i] != c[j]
    ensures |Elements(c)| == |c|
  {
    if c != [] {
      ChainCount(c[1..]);
      assert c[0] !in c[1..];
    }
  }

  lemma {:induction false} Subset(a: set<nat>, b: set<nat>)
    requires a <= b
    ensures |a| <= |b|
  {
    if a != {} {
      var x :| x in a;
      Subset(a - {x}, b - {x});
    }
  }
}
