/**
  The page allocator.  An arena keeps "free" twice: as an intrusive list of page nodes and as a flag
  in every page; `Arena.Valid` says that the two agree, and with the counter.  `free` finds a page's
  arena by the address of its page structure.
 */
module NodeAllocator {
  import opened Bits
  import opened Pages
  import opened Bitmap
  import opened LinkedList

  const PAGE_T: nat := 16           // sizeof(page_t): two pointers and two 32-bit words
  const CX_PAGE_OCCUPIED: nat := 1
  const INT_MAX: nat := 0x7FFF_FFFF

  class Arena {
    const base: nat                 // physical address of the first page
    const priority: int
    const pages: seq<Node>          // the array of page structures
    const pagesAddr: nat            // and its address
    const freeList: Node
    var free: nat
    ghost var freeSeq: seq<Node>    // the entries of freeList, in order

    ghost function Nodes(): set<Node> {
      {freeList} + set p | p in pages
    }

    /** The page structures lie one after another, and the list head is not one of them. */
    ghost predicate Shaped() {
      && |pages| <= INT_MAX && freeList !in pages
      && (forall i :: 0 <= i < |pages| ==> pages[i].addr == pagesAddr + 16 * i)
    }

    function FirstFrame(): nat { base / PAGE_SIZE }

    /** The bitmap reaches as far as its bits are looked at. */
    predicate Covered(bt: Bitmap?) {
      bt != null && FirstFrame() < |pages| ==> |pages| <= WORD_BITS * bt.words.Length
    }

    /** The list, the flags and the counter say the same. */
    ghost predicate Valid()
      reads this, Nodes()
    {
      && Shaped()
      && (forall p :: p in freeSeq ==> p in pages)
      && Linked(freeList, freeSeq)
      && (forall p :: p in pages ==> p.flags == if p in freeSeq then 0 else CX_PAGE_OCCUPIED)
      && free == |freeSeq|
    }

    constructor (base: nat, priority: int, pages: seq<Node>, pagesAddr: nat)
      ensures this.base == base && this.priority == priority && this.pages == pages && this.pagesAddr == pagesAddr
      ensures fresh(freeList)
    {
      this.base, this.priority, this.pages, this.pagesAddr := base, priority, pages, pagesAddr;
      freeList := new Node(0);
      free, freeSeq := 0, [];
    }

    /**
      Takes one free page out of the list and marks it.  It keeps its own links, so that it is never its
      own predecessor when it comes off.
     */
    method Unlink(pg: Node, ghost k: nat)
      requires Valid() && k < |freeSeq| && freeSeq[k] == pg
      modifies this`free, this`freeSeq, freeList, freeSeq
      ensures Valid() && freeSeq == old(freeSeq[..k] + freeSeq[k + 1..])
      ensures pg.prev != pg
    {
      EntryHasPredecessor(freeList, freeSeq, k);
      ListRemove(pg, freeList, freeSeq, k);
      freeSeq := freeSeq[..k] + freeSeq[k + 1..];
      pg.flags := Or(pg.flags, CX_PAGE_OCCUPIED);
      free := free - 1;
    }

    /** Takes one free page out of the list and puts it at the front of the caller's list. */
    method Occupy(pg: Node, ghost k: nat, head: Node, ghost chain: seq<Node>)
      requires Valid() && k < |freeSeq| && freeSeq[k] == pg
      requires Linked(head, chain) && head !in Nodes() && forall p :: p in chain ==> p !in freeSeq && p != freeList
      modifies this`free, this`freeSeq, freeList, freeSeq, head, chain
      ensures Valid() && freeSeq == old(freeSeq[..k] + freeSeq[k + 1..])
      ensures Linked(head, [pg] + chain)
      ensures forall p :: p in chain ==> p.flags == old(p.flags)
    {
      Unlink(pg, k);
      // `allocate` would give up here on a page that is its own predecessor.
      assert pg.prev != pg;
      assert forall p :: p in chain ==> p.next == old(p.next) && p.prev == old(p.prev);
      PutAside(pg, head, chain);
    }

    /** A page that is on no list of the arena goes to the front of the caller's. */
    method PutAside(pg: Node, head: Node, ghost chain: seq<Node>)
      requires Valid() && pg in pages && pg !in freeSeq && pg !in chain
      requires Linked(head, chain) && head !in Nodes() && forall p :: p in chain ==> p !in freeSeq && p != freeList
      modifies head`next, pg`next, pg`prev, (set p | p in chain)`next, (set p | p in chain)`prev
      ensures Valid() && Linked(head, [pg] + chain)
    {
      ListAppend(head, pg, head, chain, 0);
      assert chain[..0] + [pg] + chain[0..] == [pg] + chain;
    }

    /** Gives one occupied page back to the front of the list.  Another list is not disturbed. */
    method Release(pg: Node, ghost head: Node, ghost rest: seq<Node>)
      requires Valid() && pg in pages && pg !in freeSeq
      requires Linked(head, rest) && head !in Nodes()
      requires forall p :: p in rest ==> p != pg && p !in freeSeq && p != freeList
      modifies this`free, this`freeSeq, freeList, freeSeq, pg
      ensures Valid() && freeSeq == [pg] + old(freeSeq) && Linked(head, rest)
    {
      pg.flags := And(pg.flags, 0xFFFF_FFFE);
      ListAppend(freeList, pg, freeList, freeSeq, 0);
      assert freeSeq[..0] + [pg] + freeSeq[0..] == [pg] + freeSeq;
      free := free + 1;
      freeSeq := [pg] + freeSeq;
    }

    /**
      Builds the list of all pages in order, then takes out page i if bit i is set, for i from the
      number of the arena's first frame on.
     */
    method Init(bt: Bitmap?)
      requires Shaped()
      requires Covered(bt)
      modifies this`free, this`freeSeq, Nodes()
      ensures Valid()
      ensures freeSeq == FreePages(pages, old(Taken(bt, FirstFrame())), |pages|)
    {
      BuildList();
      if bt != null {
        assert forall p: object :: p in Nodes() ==> p != bt.words;
        ApplyBitmap(bt, Taken(bt, FirstFrame()));
      } else {
        SomeFree(pages, {}, |pages|);
      }
    }

    method BuildList()
      requires Shaped()
      modifies this`free, this`freeSeq, Nodes()
      ensures Valid() && freeSeq == pages
    {
      PagesDistinct();
      freeList.next, freeList.prev := null, freeList;
      free, freeSeq := 0, [];
      var prev := freeList;
      var i := 0;
      while i < |pages|
        invariant 0 <= i <= |pages| && Built(i) && prev == if i == 0 then freeList else pages[i - 1]
      {
        AppendPage(i, prev);
        prev := pages[i];
        i := i + 1;
      }
      assert freeSeq == pages;
    }

    /** The list of the first i pages, all of them free. */
    ghost predicate Built(i: nat)
      reads this, Nodes()
    {
      && Shaped() && i <= |pages| && Distinct(pages)
      && free == i && freeSeq == pages[..i] && Linked(freeList, freeSeq)
      && (forall k :: 0 <= k < i ==> pages[k].flags == 0)
    }

    method AppendPage(i: nat, prev: Node)
      requires Built(i) && i < |pages| && prev == if i == 0 then freeList else pages[i - 1]
      modifies this`free, this`freeSeq, Nodes()
      ensures Built(i + 1)
    {
      pages[i].flags := 0;
      pages[i].next, pages[i].prev := null, pages[i];
      ListAppend(prev, pages[i], freeList, freeSeq, i);
      assert freeSeq[..i] + [pages[i]] + freeSeq[i..] == pages[..i + 1];
      freeSeq := pages[..i + 1];
      free := free + 1;
    }

    method ApplyBitmap(bt: Bitmap, ghost taken: set<nat>)
      requires Valid() && freeSeq == pages
      requires Covered(bt) && taken == Taken(bt, FirstFrame())
      modifies this`free, this`freeSeq, Nodes()
      ensures Valid() && freeSeq == FreePages(pages, taken, |pages|)
    {
      var i := FirstFrame();
      NothingLeftOut(taken);
      ApplyingMeans(bt, taken, i);
      while i < |pages|
        invariant Applying(bt, taken, i)
      {
        NextBit(bt, i, taken);
        i := i + 1;
      }
      ApplyingMeans(bt, taken, i);
    }

    /** The list once the bits below i have been looked at. */
    ghost function LeftOver(taken: set<nat>, i: nat): seq<Node> {
      if i < |pages| then FreePages(pages, taken, i) + pages[i..] else FreePages(pages, taken, |pages|)
    }

    lemma NothingLeftOut(taken: set<nat>)
      requires forall k :: k in taken ==> k >= FirstFrame()
      ensures LeftOver(taken, FirstFrame()) == pages
    {
      var n := if FirstFrame() < |pages| then FirstFrame() else |pages|;
      SomeFree(pages, taken, n);
      assert pages[..n] + pages[n..] == pages;
    }

    ghost predicate Applied(bt: Bitmap, taken: set<nat>, i: nat)
      reads this, Nodes(), bt.words
    {
      Valid() && FirstFrame() <= i && Covered(bt) && taken == Taken(bt, FirstFrame()) && freeSeq == LeftOver(taken, i)
    }

    /** `Applied`, behind a quantifier: the loop only passes it on. */
    ghost predicate Applying(bt: Bitmap, taken: set<nat>, i: nat)
      reads this, Nodes(), bt.words
    {
      forall j {:trigger Applied(bt, taken, j)} :: j == i ==> Applied(bt, taken, j)
    }

    lemma ApplyingMeans(bt: Bitmap, taken: set<nat>, i: nat)
      ensures Applying(bt, taken, i) <==> Applied(bt, taken, i)
    {
      var known := Applied(bt, taken, i);
    }

    /** One pass of the loop. */
    method NextBit(bt: Bitmap, i: nat, ghost taken: set<nat>)
      requires Applying(bt, taken, i) && i < |pages|
      modifies this`free, this`freeSeq, Nodes()
      ensures Applying(bt, taken, i + 1)
    {
      ApplyingMeans(bt, taken, i);
      ApplyBit(bt, i, taken);
      ApplyingMeans(bt, taken, i + 1);
    }

    method ApplyBit(bt: Bitmap, i: nat, ghost taken: set<nat>)
      requires Applied(bt, taken, i) && i < |pages|
      modifies this`free, this`freeSeq, freeList, freeSeq
      ensures Applied(bt, taken, i + 1)
    {
      ghost var k := |FreePages(pages, taken, i)|;
      LeftOverStep(taken, i);
      TakeIfSet(bt, i, k, taken);
    }

    method TakeIfSet(bt: Bitmap, i: nat, ghost k: nat, ghost taken: set<nat>)
      requires Valid() && FirstFrame() <= i < |pages| && Covered(bt) && taken == Taken(bt, FirstFrame())
      requires k < |freeSeq| && freeSeq[k] == pages[i]
      modifies this`free, this`freeSeq, freeList, freeSeq
      ensures Valid() && taken == Taken(bt, FirstFrame())
      ensures freeSeq == if i in taken then old(freeSeq[..k] + freeSeq[k + 1..]) else old(freeSeq)
    {
      var b := bt.Test(i);
      assert b == (i in taken);
      assert forall p: object :: p in freeSeq ==> p != bt.words;
      if b { Unlink(pages[i], k); }
    }

    lemma LeftOverStep(taken: set<nat>, i: nat)
      requires i < |pages|
      ensures var s, k := LeftOver(taken, i), |FreePages(pages, taken, i)|;
        && k < |s| && s[k] == pages[i]
        && LeftOver(taken, i + 1) == if i in taken then s[..k] + s[k + 1..] else s
    {
      AtBoundary(FreePages(pages, taken, i), pages, i);
      assert i + 1 == |pages| ==> pages[i + 1..] == [];
    }

    lemma PagesDistinct()
      requires Shaped()
      ensures Distinct(pages)
    {
    }
  }

  /** The set bits from number `first` on. */
  ghost function Taken(bt: Bitmap?, first: nat): (s: set<nat>)
    reads if bt == null then {} else {bt.words}
    ensures forall k: nat :: k in s <==> bt != null && bt.Has(k) && k >= first
  {
    if bt == null then {} else set k: nat | first <= k < WORD_BITS * bt.words.Length && bt.Has(k)
  }

  /**
    The bitmap speaks of frames: page i of an arena whose first frame is `first` has bit first + i.  The
    pass takes out exactly the pages whose frames are set, whatever the bitmap holds, if and only if
    the arena starts at frame 0 or has no page.
   */
  lemma PassMarksOwnFrames(first: nat, n: nat)
    ensures (forall bits: set<nat>, i: nat :: i < n ==> (i in bits && i >= first <==> first + i in bits))
      <==> first == 0 || n == 0
  {
    if first > 0 && n > 0 {
      var bits: set<nat> := {first};
      assert !(0 in bits && 0 >= first) && first + 0 in bits;
    }
  }

  /** The first n pages whose bit is clear, in order. */
  ghost function FreePages(pages: seq<Node>, taken: set<nat>, n: nat): (s: seq<Node>)
    requires n <= |pages|
  {
    if n == 0 then []
    else if n - 1 in taken then FreePages(pages, taken, n - 1)
    else FreePages(pages, taken, n - 1) + [pages[n - 1]]
  }

  lemma {:induction false} SomeFree(pages: seq<Node>, taken: set<nat>, n: nat)
    requires n <= |pages| && forall k :: k in taken ==> k >= n
    ensures FreePages(pages, taken, n) == pages[..n]
  {
    if n > 0 { SomeFree(pages, taken, n - 1); }
  }

  /** Of distinct pages these are the ones whose bit is clear, each right behind those of lower index. */
  lemma {:induction false} FreePagesAreClear(pages: seq<Node>, taken: set<nat>, n: nat, i: nat)
    requires Distinct(pages) && i < n <= |pages|
    ensures pages[i] in FreePages(pages, taken, n) <==> i !in taken
    ensures i !in taken ==> FreePages(pages, taken, i) + [pages[i]] <= FreePages(pages, taken, n)
  {
    OnlyPages(pages, taken, n - 1);
    if i < n - 1 { FreePagesAreClear(pages, taken, n - 1, i); }
  }

  lemma {:induction false} OnlyPages(pages: seq<Node>, taken: set<nat>, n: nat)
    requires n <= |pages|
    ensures forall p :: p in FreePages(pages, taken, n) ==> p in pages[..n]
  {
    if n > 0 {
      OnlyPages(pages, taken, n - 1);
      assert pages[..n] == pages[..n - 1] + [pages[n - 1]];
    }
  }

  lemma AtBoundary(before: seq<Node>, pages: seq<Node>, i: nat)
    requires i < |pages|
    ensures var s := before + pages[i..];
      && s[|before|] == pages[i]
      && s[..|before|] + s[|before| + 1..] == before + pages[i + 1..]
      && s == before + [pages[i]] + pages[i + 1..]
  {
  }

  // ---------- The allocator ----------

  predicate Before(a: Arena, b: Arena) {
    a.pagesAddr + PAGE_T * |a.pages| <= b.pagesAddr
  }

  /** PAGE_IS_IN_ARENA: by address. */
  predicate PageIsInArena(p: Node, a: Arena) {
    a.pagesAddr <= p.addr < a.pagesAddr + PAGE_T * |a.pages|
  }

  ghost predicate TwoApart(a: Arena, b: Arena) {
    a != b && a.Nodes() !! b.Nodes() && (Before(a, b) || Before(b, a))
  }

  ghost predicate PairwiseApart(arenas: seq<Arena>) {
    forall i, j :: 0 <= i < j < |arenas| ==> TwoApart(arenas[i], arenas[j])
  }

  lemma InsertApart(arenas: seq<Arena>, arena: Arena, at: nat)
    requires PairwiseApart(arenas) && at <= |arenas| && forall a :: a in arenas ==> TwoApart(a, arena)
    ensures PairwiseApart(arenas[..at] + [arena] + arenas[at..])
  {
    var s := arenas[..at] + [arena] + arenas[at..];
    forall i, j | 0 <= i < j < |s|
      ensures TwoApart(s[i], s[j])
    {
      assert s[i] == if i < at then arenas[i] else if i == at then arena else arenas[i - 1];
      assert s[j] == if j < at then arenas[j] else if j == at then arena else arenas[j - 1];
      if i == at { assert arenas[j - 1] in arenas; }
      if j == at { assert arenas[i] in arenas; }
    }
  }

  class PmmNode {
    var arenas: seq<Arena>          // the arena list, in order

    /** No two arenas share a node, and their page arrays do not overlap. */
    ghost predicate Apart()
      reads this
    {
      PairwiseApart(arenas)
    }

    ghost function AllNodes(): set<Node>
      reads this
    {
      set a, n | a in arenas && n in a.Nodes() :: n
    }

    ghost predicate Valid()
      reads this, arenas, AllNodes()
    {
      Apart() && forall a {:trigger a.Valid()} :: a in arenas ==> a.Valid()
    }

    constructor ()
      ensures Valid() && arenas == []
    {
      arenas := [];
    }

    lemma ArenaValid(j: nat)
      requires Valid() && j < |arenas|
      ensures arenas[j] in arenas && arenas[j].Valid()
    {
      var known := arenas[j].Valid();
    }

    /** A new arena may share nothing with those already there. */
    ghost predicate Separate(arena: Arena)
      reads this
    {
      forall a :: a in arenas ==> TwoApart(a, arena)
    }

    /**
      Adds an arena before the first one of larger priority; if there is none it goes to the front of
      the list, not to its end.
     */
    method AddArena(arena: Arena?, bt: Bitmap?)
      requires Valid()
      requires arena != null ==> arena.Shaped() && Separate(arena)
      requires arena != null ==> arena.Covered(bt)
      modifies this, arena, if arena == null then {} else arena.Nodes()
      ensures Valid()
      ensures arena == null ==> arenas == old(arenas)
      ensures arena != null ==>
        && arenas == Inserted(old(arenas), arena)
        && arena.freeSeq == FreePages(arena.pages, old(Taken(bt, arena.FirstFrame())), |arena.pages|)
      ensures forall a :: a in old(arenas) ==> a.freeSeq == old(a.freeSeq)
    {
      if arena == null { return; }
      var i := FindPlace(arena.priority);
      arena.Init(bt);
      Insert(arena, if i == |arenas| then 0 else i);
    }

    method FindPlace(priority: int) returns (i: nat)
      ensures i == FirstLarger(arenas, priority)
    {
      i := 0;
      while i < |arenas| && arenas[i].priority <= priority
        invariant 0 <= i <= |arenas|
        invariant forall k :: 0 <= k < i ==> arenas[k].priority <= priority
      {
        i := i + 1;
      }
      FirstLargerIs(arenas, priority, i);
    }

    method Insert(arena: Arena, at: nat)
      requires Apart() && (forall a :: a in arenas ==> a.Valid()) && arena.Valid() && Separate(arena) && at <= |arenas|
      modifies this`arenas
      ensures Valid() && arenas == old(arenas[..at] + [arena] + arenas[at..])
    {
      InsertApart(arenas, arena, at);
      arenas := arenas[..at] + [arena] + arenas[at..];
      assert forall a :: a in arenas ==> a in old(arenas) || a == arena;
    }

    /** `Arena.Occupy` on one arena leaves the others alone. */
    method OccupyIn(j: nat, pg: Node, ghost k: nat, head: Node, ghost chain: seq<Node>)
      requires Valid() && j < |arenas| && k < |arenas[j].freeSeq| && arenas[j].freeSeq[k] == pg
      requires Linked(head, chain) && head !in AllNodes()
      requires forall p :: p in chain ==> p in arenas[j].pages && p !in arenas[j].freeSeq
      modifies arenas[j], arenas[j].freeList, arenas[j].freeSeq, head, chain
      ensures Valid() && arenas[j].freeSeq == old(arenas[j].freeSeq[..k] + arenas[j].freeSeq[k + 1..])
      ensures Linked(head, [pg] + chain)
      ensures forall a :: a in arenas && a != arenas[j] ==> a.freeSeq == old(a.freeSeq)
    {
      var arena := arenas[j];
      assert arena in arenas && arena.Valid();
      arena.Occupy(pg, k, head, chain);
      forall i | 0 <= i < |arenas| && i != j
        ensures arenas[i].Valid()
      {
        assert arenas[i] in arenas && old(arenas[i].Valid());
        assert arenas[i] != arenas[j] && arenas[i].Nodes() !! arenas[j].Nodes();
        assert head !in arenas[i].Nodes();
      }
    }

    /** Cuts the local list off its head: the first node becomes its own predecessor. */
    method Detach(j: nat, head: Node, ghost chain: seq<Node>) returns (pages: Node)
      requires Valid() && j < |arenas| && head !in AllNodes() && Linked(head, chain) && chain != []
      requires forall p :: p in chain ==> p in arenas[j].pages && p !in arenas[j].freeSeq
      modifies chain
      ensures Valid() && Chain(pages, chain) && HandedOut(chain)
      ensures forall a :: a in arenas ==> a.freeSeq == old(a.freeSeq)
    {
      TakenAreHandedOut(j, chain);
      pages := head.next;
      assert pages == chain[0] && pages in arenas[j].pages;
      ListsMiss(chain);
      pages.prev := pages;
      forall i | 0 <= i < |arenas|
        ensures arenas[i].Valid()
      {
        assert arenas[i] in arenas && old(arenas[i].Valid());
        assert pages in chain && pages !in old(arenas[i].freeSeq) && pages != arenas[i].freeList;
      }
      assert forall p :: p in chain ==> old(OnNoList(p));
    }

    /** One step of `Allocate`: the next page of the first arena's list moves to the local list. */
    method TakeNext(head: Node, ghost s: seq<Node>, ghost ret: nat, ghost chain: seq<Node>) returns (pg: Node)
      requires Progressed(head, s, ret, chain) && ret < |s|
      modifies arenas[0], arenas[0].freeList, s, head
      ensures Progressed(head, s, ret + 1, [pg] + chain)
      ensures forall a :: a in arenas && a != arenas[0] ==> a.freeSeq == old(a.freeSeq)
    {
      ArenaValid(0);
      pg := arenas[0].freeList.next;
      assert pg == arenas[0].freeSeq[0] == s[ret];
      assert s[..ret + 1][..ret] == s[..ret];
      assert forall p :: p in chain ==> p in s;
      OccupyIn(0, pg, 0, head, chain);
    }

    /** One pass of the inner loop; `none` is its jump out. */
    method TakeIfAny(arena: Arena, head: Node, ghost s: seq<Node>, ghost ret: nat, ghost chain: seq<Node>)
      returns (none: bool, pg: Node?)
      requires Progress(head, s, ret, chain) && arena == arenas[0]
      modifies arenas[0], arenas[0].freeList, s, head
      ensures none <==> ret == |s|
      ensures if none then Progress(head, s, ret, chain) else pg != null && Progress(head, s, ret + 1, [pg] + chain)
      ensures forall a :: a in arenas && a != arenas[0] ==> a.freeSeq == old(a.freeSeq)
    {
      ProgressMeans(head, s, ret, chain);
      ArenaValid(0);
      none, pg := arena.free == 0 || arena.freeList.next == null, null;
      if !none {
        pg := TakeNext(head, s, ret, chain);
        ProgressMeans(head, s, ret + 1, [pg] + chain);
      }
    }

    /** The inner loop of `Allocate`.  `end` is the jump out of both loops. */
    method TakeFrom(i: nat, cnt: nat, head: Node, ret0: nat, ghost s: seq<Node>, ghost chain0: seq<Node>)
      returns (end: bool, ret: nat, ghost chain: seq<Node>)
      requires Progress(head, s, ret0, chain0) && ret0 <= cnt && i < |arenas| && (i > 0 ==> ret0 == cnt)
      modifies arenas[0], arenas[0].freeList, s, head
      ensures Progress(head, s, ret, chain) && ret <= cnt && if end then ret == |s| else ret == cnt
      ensures forall a :: a in arenas && a != arenas[0] ==> a.freeSeq == old(a.freeSeq)
    {
      ret, chain := ret0, chain0;
      var arena := arenas[i];
      while ret < cnt
        invariant ret <= cnt && (i > 0 ==> ret == cnt)
        invariant Progress(head, s, ret, chain)
        invariant forall a :: a in arenas && a != arenas[0] ==> a.freeSeq == old(a.freeSeq)
      {
        var none, pg := TakeIfAny(arena, head, s, ret, chain);
        if none { return true, ret, chain; }
        chain := [pg] + chain;
        ret := ret + 1;
      }
      end := false;
    }

    /** A head for a local list. */
    method NewHead() returns (head: Node)
      requires Valid()
      ensures Valid() && fresh(head) && head !in AllNodes() && Linked(head, [])
    {
      forall j | 0 <= j < |arenas|
        ensures arenas[j].Valid()
      {
        ArenaValid(j);
      }
      head := new Node(0);
      forall a | a in arenas
        ensures a.Valid()
      {
        var j :| 0 <= j < |arenas| && arenas[j] == a;
        assert old(arenas[j].Valid());
      }
    }

    /** The outer loop of `Allocate`. */
    method TakePages(cnt: nat, head: Node, ghost s: seq<Node>) returns (ret: nat, ghost chain: seq<Node>)
      requires Progress(head, s, 0, []) && cnt > 0
      modifies arenas[0], arenas[0].freeList, s, head
      ensures Progress(head, s, ret, chain) && ret == if cnt <= |s| then cnt else |s|
      ensures forall a :: a in arenas && a != arenas[0] ==> a.freeSeq == old(a.freeSeq)
    {
      ret, chain := 0, [];
      var i, end := 0, false;
      while i < |arenas| && !end
        invariant 0 <= i <= |arenas| && ret <= cnt && (end ==> i > 0)
        invariant i > 0 ==> if end then ret == |s| else ret == cnt
        invariant Progress(head, s, ret, chain)
        invariant forall a :: a in arenas && a != arenas[0] ==> a.freeSeq == old(a.freeSeq)
      {
        end, ret, chain := TakeFrom(i, cnt, head, ret, s, chain);
        i := i + 1;
      }
    }

    /**
      Hands out up to cnt pages of the first arena: as soon as that arena has none left the search
      ends, later arenas are not tried.
     */
    method Allocate(cnt: nat) returns (ret: nat, pages: Node?, ghost chain: seq<Node>)
      requires Valid() && cnt > 0 && arenas != [] && arenas[0].freeSeq != []
      modifies arenas[0], arenas[0].freeList, arenas[0].freeSeq
      ensures Valid()
      ensures ret == if cnt <= |old(arenas[0].freeSeq)| then cnt else |old(arenas[0].freeSeq)|
      ensures Chain(pages, chain) && chain == Reversed(old(arenas[0].freeSeq)[..ret])
      ensures HandedOut(chain) && forall p :: p in chain ==> p in arenas[0].pages
      ensures arenas[0].freeSeq == old(arenas[0].freeSeq)[ret..]
      ensures forall a :: a in arenas && a != arenas[0] ==> a.freeSeq == old(a.freeSeq)
    {
      var head := NewHead();
      ghost var s := arenas[0].freeSeq;
      ArenaValid(0);
      ProgressMeans(head, s, 0, []);
      ret, chain := TakePages(cnt, head, s);
      ProgressMeans(head, s, ret, chain);
      assert chain[0] == s[ret - 1];
      pages := Detach(0, head, chain);
    }

    /** Pages of one arena that are not on its list are on no list. */
    lemma TakenAreHandedOut(j: nat, chain: seq<Node>)
      requires Valid() && j < |arenas|
      requires forall p :: p in chain ==> p in arenas[j].pages && p !in arenas[j].freeSeq
      ensures HandedOut(chain)
    {
      ArenaValid(j);
      forall p, a | p in chain && a in arenas
        ensures p !in a.freeSeq && p in AllPages()
      {
        assert arenas[j] in arenas && p in arenas[j].Nodes();
        if a != arenas[j] {
          var i :| 0 <= i < |arenas| && arenas[i] == a;
          ArenaValid(i);
          assert arenas[i].Nodes() !! arenas[j].Nodes();
        }
      }
    }

    /** `Arena.Release` on one arena leaves the others alone. */
    method ReleaseIn(j: nat, pg: Node, ghost head: Node, ghost rest: seq<Node>)
      requires Valid() && j < |arenas| && pg in arenas[j].pages && pg !in arenas[j].freeSeq
      requires Linked(head, rest) && head !in AllNodes()
      requires forall p :: p in rest ==> p != pg && p !in arenas[j].freeSeq && p != arenas[j].freeList
      modifies arenas[j], arenas[j].freeList, arenas[j].freeSeq, pg
      ensures Valid() && arenas[j].freeSeq == [pg] + old(arenas[j].freeSeq) && Linked(head, rest)
      ensures forall a :: a in arenas && a != arenas[j] ==> a.freeSeq == old(a.freeSeq)
    {
      var arena := arenas[j];
      assert arena in arenas && arena.Valid();
      NodesInAll(j);
      arena.Release(pg, head, rest);
      forall i | 0 <= i < |arenas| && i != j
        ensures arenas[i].Valid()
      {
        assert arenas[i] in arenas && old(arenas[i].Valid());
        assert arenas[i] != arenas[j] && arenas[i].Nodes() !! arenas[j].Nodes();
      }
    }

    /** The index of the arena whose page array holds the address of pg, if there is one. */
    method FindArena(pg: Node) returns (j: nat)
      requires Valid()
      ensures Valid()
      ensures j <= |arenas| && (j < |arenas| ==> PageIsInArena(pg, arenas[j]))
      ensures forall i :: 0 <= i < j ==> !PageIsInArena(pg, arenas[i])
    {
      j := 0;
      while j < |arenas|
        invariant 0 <= j <= |arenas|
        invariant forall i :: 0 <= i < j ==> !PageIsInArena(pg, arenas[i])
      {
        if PageIsInArena(pg, arenas[j]) { return; }
        j := j + 1;
      }
    }

    /** The physical address of a page: its index in its arena's array, in pages, above the arena's base. */
    method PageToPhysical(pg: Node) returns (phys: nat)
      requires Valid()
      ensures forall j, i :: 0 <= j < |arenas| && 0 <= i < |arenas[j].pages| && pg == arenas[j].pages[i] ==>
        phys == arenas[j].base + i * 4096
      ensures (forall j :: 0 <= j < |arenas| ==> !PageIsInArena(pg, arenas[j])) ==> phys == 0
    {
      var j := FindArena(pg);
      if j == |arenas| {
        phys := 0;
      } else {
        phys := arenas[j].base + (pg.addr - arenas[j].pagesAddr) / PAGE_T * PAGE_SIZE;
      }
      forall k, i | 0 <= k < |arenas| && 0 <= i < |arenas[k].pages| && pg == arenas[k].pages[i]
        ensures phys == arenas[k].base + i * PAGE_SIZE
      {
        ArenaValid(k);
        OwnArena(k, i);
        assert pg.addr - arenas[k].pagesAddr == PAGE_T * i;
      }
    }

    /** A page's address lies in its own arena's array and in no other. */
    lemma OwnArena(j: nat, i: nat)
      requires Valid() && j < |arenas| && i < |arenas[j].pages|
      ensures forall k :: 0 <= k < |arenas| ==> (PageIsInArena(arenas[j].pages[i], arenas[k]) <==> k == j)
    {
      ArenaValid(j);
      assert arenas[j].pages[i].addr == arenas[j].pagesAddr + PAGE_T * i;
      forall k | 0 <= k < |arenas| && k != j
        ensures !PageIsInArena(arenas[j].pages[i], arenas[k])
      {
        if k < j { assert Before(arenas[k], arenas[j]) || Before(arenas[j], arenas[k]); }
        else { assert Before(arenas[j], arenas[k]) || Before(arenas[k], arenas[j]); }
      }
    }

    // ---------- free ----------

    /** Pages that some arena owns and has handed out. */
    ghost predicate HandedOut(chain: seq<Node>)
      reads this, arenas
    {
      forall p :: p in chain ==> p in AllPages() && OnNoList(p)
    }

    ghost predicate OnNoList(p: Node)
      reads this, arenas
    {
      forall a :: a in arenas ==> p !in a.freeSeq
    }

    ghost function AllPages(): set<Node>
      reads this
    {
      set a, p | a in arenas && p in a.pages :: p
    }

    /** Puts the caller's chain behind a local head. */
    method Splice(head: Node, first: Node, ghost chain: seq<Node>)
      requires Valid() && Chain(first, chain) && HandedOut(chain) && head !in AllNodes()
      modifies head`next, first`prev
      ensures Valid() && Linked(head, chain)
      ensures forall a :: a in arenas ==> a.freeSeq == old(a.freeSeq)
    {
      ListsMiss(chain);
      head.next := first;
      first.prev := head;
      ListsKept(chain);
    }

    /** Pages handed out are on no arena's list. */
    lemma ListsMiss(chain: seq<Node>)
      requires Valid() && HandedOut(chain)
      ensures Missed(chain) && forall p :: p in chain ==> p in AllNodes()
    {
      forall p | p in chain
        ensures p in AllNodes()
      {
        assert p in AllPages();
        var b :| b in arenas && p in b.pages;
        assert p in b.Nodes();
      }
      forall i, p | 0 <= i < |arenas| && p in chain
        ensures p !in arenas[i].freeSeq && p != arenas[i].freeList
      {
        assert p in AllPages() && OnNoList(p) && arenas[i] in arenas;
        var b :| b in arenas && p in b.pages;
        var j :| 0 <= j < |arenas| && arenas[j] == b;
        assert arenas[i].Valid() && arenas[j].Valid();
        assert i != j ==> arenas[i].Nodes() !! arenas[j].Nodes();
      }
    }

    /** The heads and entries of the free lists. */
    ghost function ListNodes(): set<Node>
      reads this, arenas
    {
      (set a | a in arenas :: a.freeList) + (set a, p | a in arenas && p in a.freeSeq :: p)
    }

    lemma ListNodesInAll()
      requires Valid()
      ensures ListNodes() <= AllNodes()
    {
      forall a | a in arenas
        ensures a.freeList in AllNodes() && forall p :: p in a.freeSeq ==> p in AllNodes()
      {
        var j :| 0 <= j < |arenas| && arenas[j] == a;
        NodesInAll(j);
      }
    }

    lemma InListNodes(a: Arena)
      requires a in arenas
      ensures a.freeList in ListNodes() && forall p :: p in a.freeSeq ==> p in ListNodes()
    {
    }

    lemma InAllNodes(j: nat, p: Node)
      requires j < |arenas| && p in arenas[j].Nodes()
      ensures p in AllNodes()
    {
      assert arenas[j] in arenas;
    }

    lemma NodesInAll(j: nat)
      requires Valid() && j < |arenas|
      ensures arenas[j].Nodes() <= AllNodes() && arenas[j].freeList in AllNodes()
      ensures forall p :: p in arenas[j].freeSeq || p in arenas[j].pages ==> p in AllNodes()
    {
      ArenaValid(j);
      forall p | p in arenas[j].Nodes()
        ensures p in AllNodes()
      {
        InAllNodes(j, p);
      }
    }

    ghost predicate Missed(chain: seq<Node>)
      reads this, arenas
    {
      forall i, p :: 0 <= i < |arenas| && p in chain ==> p !in arenas[i].freeSeq && p != arenas[i].freeList
    }

    /** Changing the links of nodes on no arena's list leaves every arena valid. */
    twostate lemma ListsKept(chain: seq<Node>)
      requires old(Valid()) && arenas == old(arenas) && (forall a :: a in arenas ==> unchanged(a))
      requires forall i, p :: 0 <= i < |arenas| && p in chain ==>
        p !in old(arenas[i].freeSeq) && p != arenas[i].freeList
      requires forall p :: p in AllNodes() && p !in chain ==> unchanged(p)
      requires forall p :: p in AllNodes() ==> p.flags == old(p.flags)
      ensures Valid()
    {
      forall i | 0 <= i < |arenas|
        ensures arenas[i].Valid()
      {
        var a := arenas[i];
        assert a in arenas && old(a.Valid());
        forall p | p in a.Nodes()
          ensures p.flags == old(p.flags) && (p in a.freeSeq || p == a.freeList ==> unchanged(p))
        {
          InAllNodes(i, p);
        }
        assert forall k :: 0 <= k < |a.freeSeq| ==> a.freeSeq[k] in a.freeSeq && a.freeSeq[k] in a.Nodes();
        assert forall k {:trigger a.freeSeq[k].next} {:trigger a.freeSeq[k].prev} :: 0 <= k < |a.freeSeq| ==>
          a.freeSeq[k].next == old(a.freeSeq[k].next) && a.freeSeq[k].prev == old(a.freeSeq[k].prev);
      }
    }

    /** Takes the first page off the local list. */
    method PopFront(head: Node, ghost chain: seq<Node>) returns (pg: Node)
      requires Valid() && Linked(head, chain) && chain != [] && HandedOut(chain) && head !in AllNodes()
      modifies head`next, (set n | n in chain)`next, (set n | n in chain)`prev
      ensures Valid() && Linked(head, chain[1..]) && pg == chain[0] && HandedOut(chain)
      ensures forall a :: a in arenas ==> a.freeSeq == old(a.freeSeq)
    {
      ListsMiss(chain);
      pg := head.next;
      assert pg == chain[0];
      ListRemove(pg, head, chain, 0);
      assert chain[..0] + chain[0 + 1..] == chain[1..];
      ListsKept(chain);
    }

    /** One step of `free`: the first page goes back to its arena.  Pages of no arena are not counted. */
    method FreeOne(head: Node, ghost chain: seq<Node>, ghost nodes: set<Node>) returns (counted: bool)
      requires Valid() && Linked(head, chain) && chain != [] && HandedOut(chain) && head !in AllNodes()
      requires ListsWithin(nodes) && forall p :: p in chain ==> p in nodes
      modifies head`next, arenas, nodes
      ensures Valid() && Linked(head, chain[1..]) && HandedOut(chain[1..]) && counted
      ensures forall a :: a in arenas ==>
        a.freeSeq == if chain[0] in a.pages then [chain[0]] + old(a.freeSeq) else old(a.freeSeq)
    {
      ListsMiss(chain);
      var pg := PopFront(head, chain);
      var j := FindArena(pg);
      OwnerFound(chain, pg, j);
      counted := j < |arenas|;
      if counted { ReleaseKeeping(j, pg, head, chain[1..], chain, nodes); }
    }

    /** The free lists hold nodes of this set only. */
    ghost predicate ListsWithin(nodes: set<Node>)
      reads this, arenas
    {
      forall a :: a in arenas ==> a.freeList in nodes && forall p :: p in a.freeSeq ==> p in nodes
    }

    /** `ReleaseIn` while other pages wait on a local list. */
    method ReleaseKeeping(j: nat, pg: Node, head: Node, ghost rest: seq<Node>, ghost chain: seq<Node>, ghost nodes: set<Node>)
      requires Valid() && j < |arenas| && pg in arenas[j].pages && pg !in arenas[j].freeSeq
      requires Linked(head, rest) && HandedOut(chain) && chain == [pg] + rest && Distinct(chain)
      requires head !in AllNodes() && ListsWithin(nodes) && pg in nodes
      modifies arenas, nodes
      ensures Valid() && Linked(head, rest) && HandedOut(rest)
      ensures arenas[j].freeSeq == [pg] + old(arenas[j].freeSeq)
      ensures forall a :: a in arenas && a != arenas[j] ==> a.freeSeq == old(a.freeSeq)
    {
      BeforeRelease(j, pg, rest, chain);
      assert arenas[j] in arenas;
      ghost var before := map a | a in arenas :: a.freeSeq;
      ReleaseIn(j, pg, head, rest);
      StillHandedOut(before, j, pg, rest);
    }

    lemma BeforeRelease(j: nat, pg: Node, rest: seq<Node>, chain: seq<Node>)
      requires Valid() && j < |arenas| && pg in arenas[j].pages
      requires HandedOut(chain) && chain == [pg] + rest && Distinct(chain)
      ensures pg !in rest && forall p :: p in rest ==> p != pg && p !in arenas[j].freeSeq && p != arenas[j].freeList
      ensures pg in AllNodes() && arenas[j].freeList in AllNodes()
      ensures forall p :: p in arenas[j].freeSeq ==> p in AllNodes()
      ensures forall p, a :: p in rest && a in arenas ==> p !in a.freeSeq
      ensures forall p :: p in rest ==> p in AllPages()
    {
      ListsMiss(chain);
      ListsMissAll(chain);
      NodesInAll(j);
      TailMisses(pg, rest);
    }

    lemma ListsMissAll(chain: seq<Node>)
      requires HandedOut(chain)
      ensures forall p, a :: p in chain && a in arenas ==> p !in a.freeSeq
    {
      forall p, a | p in chain && a in arenas
        ensures p !in a.freeSeq
      {
        assert OnNoList(p);
      }
    }

    lemma StillHandedOut(before: map<Arena, seq<Node>>, j: nat, pg: Node, rest: seq<Node>)
      requires j < |arenas| && pg !in rest && forall a :: a in arenas ==> a in before
      requires forall a :: a in arenas ==> a.freeSeq == if a == arenas[j] then [pg] + before[a] else before[a]
      requires forall p, a :: p in rest && a in arenas ==> p !in before[a]
      requires forall p :: p in rest ==> p in AllPages()
      ensures HandedOut(rest)
    {
      forall p | p in rest
        ensures OnNoList(p)
      {
      }
    }

    lemma TailMisses(pg: Node, rest: seq<Node>)
      requires Distinct([pg] + rest)
      ensures forall p :: p in rest ==> p in [pg] + rest && p != pg
    {
      var chain := [pg] + rest;
      forall p | p in rest
        ensures p in chain && p != pg
      {
        var k :| 0 <= k < |rest| && rest[k] == p;
        assert chain[k + 1] == p && chain[0] == pg;
      }
    }

    lemma OwnerFound(chain: seq<Node>, pg: Node, j: nat)
      requires Valid() && HandedOut(chain) && pg in chain && j <= |arenas|
      requires j < |arenas| ==> PageIsInArena(pg, arenas[j])
      requires forall i :: 0 <= i < j ==> !PageIsInArena(pg, arenas[i])
      ensures j < |arenas| && pg in arenas[j].pages && pg !in arenas[j].freeSeq
      ensures forall a :: a in arenas && a != arenas[j] ==> pg !in a.pages
    {
      assert pg in AllPages() && OnNoList(pg);
      var b :| b in arenas && pg in b.pages;
      var k :| 0 <= k < |arenas| && arenas[k] == b;
      var n :| 0 <= n < |arenas[k].pages| && arenas[k].pages[n] == pg;
      OwnArena(k, n);
      forall i | 0 <= i < |arenas| && i != k
        ensures pg !in arenas[i].pages
      {
        assert pg in arenas[k].Nodes();
        assert arenas[i].Nodes() !! arenas[k].Nodes();
      }
    }

    lemma StillWithin(before: map<Arena, seq<Node>>, nodes: set<Node>, pg: Node)
      requires pg in nodes && forall a :: a in arenas ==> a in before && a.freeList in nodes
      requires forall a, p :: a in arenas && p in before[a] ==> p in nodes
      requires forall a :: a in arenas ==> a.freeSeq == before[a] || a.freeSeq == [pg] + before[a]
      ensures ListsWithin(nodes)
    {
    }

    /** While a chain is given back: `left` is still on the local list. */
    ghost predicate Giving(head: Node, left: seq<Node>, chain: seq<Node>, lists: map<Arena, seq<Node>>, nodes: set<Node>)
      reads this, arenas, AllNodes(), head, set p | p in left
    {
      && Valid() && head !in AllNodes() && Linked(head, left) && HandedOut(left)
      && ListsWithin(nodes) && (forall p :: p in left ==> p in nodes)
      && (forall a :: a in arenas ==>
            a in lists && GivenBack(a.pages, left, a.freeSeq) == GivenBack(a.pages, chain, lists[a]))
    }

    method GiveOne(head: Node, ghost left: seq<Node>, ghost chain: seq<Node>, ghost lists: map<Arena, seq<Node>>,
                   ghost nodes: set<Node>)
      returns (counted: bool)
      requires Giving(head, left, chain, lists, nodes) && left != []
      modifies head`next, arenas, nodes
      ensures Giving(head, left[1..], chain, lists, nodes) && counted
    {
      ghost var before := map a | a in arenas :: a.freeSeq;
      counted := FreeOne(head, left, nodes);
      StillWithin(before, nodes, left[0]);
    }

    method GiveAll(head: Node, ghost chain: seq<Node>, ghost lists: map<Arena, seq<Node>>, ghost nodes: set<Node>)
      returns (ret: nat)
      requires Giving(head, chain, chain, lists, nodes)
      modifies head`next, arenas, nodes
      ensures Valid() && head.next == null && ret == |chain|
      ensures forall a :: a in arenas ==> a in lists && a.freeSeq == GivenBack(a.pages, chain, lists[a])
    {
      ret := 0;
      ghost var left := chain;
      while head.next != null
        invariant Giving(head, left, chain, lists, nodes) && ret == |chain| - |left|
        decreases |left|
      {
        var counted := GiveOne(head, left, chain, lists, nodes);
        if counted { ret := ret + 1; }
        left := left[1..];
      }
    }

    /** Gives a chain back, page by page, each to the front of its own arena's list. */
    method Free(first: Node, ghost chain: seq<Node>) returns (ret: nat, rest: Node?)
      requires Valid() && Chain(first, chain) && HandedOut(chain)
      modifies arenas, ListNodes(), set p | p in chain
      ensures Valid() && ret == |chain| && rest == null
      ensures forall a :: a in arenas ==> a.freeSeq == GivenBack(a.pages, chain, old(a.freeSeq))
    {
      ghost var nodes := ListNodes() + set p | p in chain;
      ghost var lists := map a | a in arenas :: a.freeSeq;
      var head := NewHead();
      ListsMiss(chain);
      assert first == chain[0] && first in chain && first in AllNodes();
      Splice(head, first, chain);
      assert ListsWithin(nodes);
      ret := GiveAll(head, chain, lists, nodes);
      rest := head.next;
    }

    /** Allocating and giving back restores every list in its order; `Valid` ties flags and counters to it. */
    method AllocateThenFree(cnt: nat) returns (ret: nat)
      requires Valid() && cnt > 0 && arenas != [] && arenas[0].freeSeq != []
      modifies arenas, AllNodes()
      ensures Valid() && forall a :: a in arenas ==> a.freeSeq == old(a.freeSeq)
    {
      ghost var lists := map a | a in arenas :: a.freeSeq;
      ArenaValid(0);
      NodesInAll(0);
      var pages;
      ghost var chain;
      ret, pages, chain := Allocate(cnt);
      ghost var after := map a | a in arenas :: a.freeSeq;
      assert arenas[0] in arenas;
      assert forall p :: p in lists[arenas[0]] ==> p in arenas[0].pages;
      assert chain == Reversed(lists[arenas[0]][..ret]) && after[arenas[0]] == lists[arenas[0]][ret..];
      assert forall a :: a in arenas && a != arenas[0] ==> after[a] == lists[a];
      ListNodesInAll();
      ListsMiss(chain);
      var ret', rest := Free(pages, chain);
      Restored(ret, chain, lists, after);
    }

    lemma Restored(n: nat, chain: seq<Node>, lists: map<Arena, seq<Node>>, after: map<Arena, seq<Node>>)
      requires Apart() && arenas != [] && (forall a :: a in arenas ==> a in lists && a in after)
      requires n <= |lists[arenas[0]]| && forall p :: p in lists[arenas[0]] ==> p in arenas[0].pages
      requires chain == Reversed(lists[arenas[0]][..n]) && after[arenas[0]] == lists[arenas[0]][n..]
      requires forall p :: p in chain ==> p in arenas[0].pages
      requires forall a :: a in arenas && a != arenas[0] ==> after[a] == lists[a]
      requires forall a :: a in arenas ==> a.freeSeq == GivenBack(a.pages, chain, after[a])
      ensures forall a :: a in arenas ==> a.freeSeq == lists[a]
    {
      FirstIsRestored(lists[arenas[0]], n);
      OthersKept(chain, after);
      assert arenas[0] in arenas;
    }

    lemma OthersKept(chain: seq<Node>, after: map<Arena, seq<Node>>)
      requires Apart() && arenas != [] && forall p :: p in chain ==> p in arenas[0].pages
      requires forall a :: a in arenas ==> a in after && a.freeSeq == GivenBack(a.pages, chain, after[a])
      ensures forall a :: a in arenas && a != arenas[0] ==> a.freeSeq == after[a]
    {
      forall a | a in arenas && a != arenas[0]
        ensures a.freeSeq == after[a]
      {
        OthersMissed(chain, a);
        GivenBackElsewhere(a.pages, chain, after[a]);
      }
    }

    lemma FirstIsRestored(s: seq<Node>, n: nat)
      requires arenas != [] && n <= |s| && forall p :: p in s ==> p in arenas[0].pages
      ensures GivenBack(arenas[0].pages, Reversed(s[..n]), s[n..]) == s
    {
      GivenBackUndoes(arenas[0].pages, s, n);
    }

    lemma OthersMissed(chain: seq<Node>, a: Arena)
      requires Apart() && arenas != [] && a in arenas && a != arenas[0]
      requires forall p :: p in chain ==> p in arenas[0].pages
      ensures forall i :: 0 <= i < |chain| ==> chain[i] !in a.pages
    {
      var j :| 0 <= j < |arenas| && arenas[j] == a;
      assert arenas[0].Nodes() !! arenas[j].Nodes();
      forall i | 0 <= i < |chain|
        ensures chain[i] !in a.pages
      {
        assert chain[i] in chain && chain[i] in arenas[0].Nodes();
      }
    }

    /** Equal lists mean equal flags and equal counters. */
    twostate lemma SameListsSameFlags(a: Arena)
      requires old(a.Valid()) && a.Valid() && a.freeSeq == old(a.freeSeq)
      ensures a.free == old(a.free) && forall p :: p in a.pages ==> p.flags == old(p.flags)
    {
    }

    // ---------- allocate_contiguous ----------

    /**
      The brute-force search: the first window in the first arena that has one.  A run that reaches the
      last page is never looked at again, so a window must end before it.
     */
    method FindWindow(cnt: nat) returns (found: bool, j: nat, w: nat)
      requires Valid() && cnt > 0
      ensures Valid()
      ensures found ==> j < |arenas| && Window(arenas[j], w, cnt)
      ensures found ==> forall v :: 0 <= v < w ==> !Window(arenas[j], v, cnt)
      ensures found ==> forall i, v: nat :: 0 <= i < j ==> !Window(arenas[i], v, cnt)
      ensures !found ==> forall i, v: nat :: 0 <= i < |arenas| ==> !Window(arenas[i], v, cnt)
    {
      var r1, idx := INT_MAX, 0;
      found, j, w := false, 0, 0;
      while j < |arenas|
        invariant Valid() && 0 <= j <= |arenas| && !found && r1 == INT_MAX
        invariant forall i, v: nat :: 0 <= i < j ==> !Window(arenas[i], v, cnt)
      {
        var r2;
        found, idx, r2 := SearchArena(arenas[j], cnt, r1);
        if found {
          r1 := r2;
          w := idx + 1 - cnt;
          return;
        }
        j := j + 1;
      }
    }

    /** The inner loop: r2 counts the free pages just before page i. */
    method SearchArena(a: Arena, cnt: nat, r1: nat) returns (found: bool, idx: nat, r2: nat)
      requires a in arenas && Valid() && cnt > 0 && r1 == INT_MAX
      ensures Valid()
      ensures found ==> r2 == cnt <= idx + 1 && Window(a, idx + 1 - cnt, cnt)
      ensures found ==> forall v :: 0 <= v < idx + 1 - cnt ==> !Window(a, v, cnt)
      ensures !found ==> forall v: nat :: !Window(a, v, cnt)
    {
      assert a.Valid();
      found, idx, r2 := false, 0, 0;
      var i := 0;
      while i < |a.pages|
        invariant 0 <= i <= |a.pages| && r2 <= cnt && r2 <= i
        invariant forall k :: i - r2 <= k < i ==> a.pages[k] in a.freeSeq
        invariant forall v :: 0 <= v < i - r2 ==> !Window(a, v, cnt)
      {
        assert a.pages[i] in a.pages;
        if And(a.pages[i].flags, CX_PAGE_OCCUPIED) == 0 && r2 < cnt {
          r2 := r2 + 1;
        } else {
          if r2 <= r1 && r2 >= cnt {
            idx := i - 1;
          }
          if r2 == cnt { return true, idx, r2; }
          assert a.pages[i] !in a.freeSeq;
          r2 := 0;
        }
        i := i + 1;
      }
    }

    /** While a window is being taken: its last n pages are on the local list, the others still free. */
    ghost predicate Taking(j: nat, w: nat, cnt: nat, n: nat, s: seq<Node>, head: Node)
      reads this, arenas, AllNodes(), head, set p | p in s
    {
      && Valid() && j < |arenas| && head !in AllNodes()
      && n <= cnt && w + cnt < |arenas[j].pages|
      && var a := arenas[j];
         var chain := a.pages[w + cnt - n..w + cnt];
         && (forall k :: w <= k < w + cnt - n ==> a.pages[k] in a.freeSeq)
         && a.freeSeq == Without(s, chain) && Distinct(s)
         && (forall p :: p in chain ==> p in s) && Linked(head, chain)
    }

    /** `Taking`, behind a quantifier: the loop only passes it on. */
    ghost predicate UnderWay(j: nat, w: nat, cnt: nat, n: nat, s: seq<Node>, head: Node)
      reads this, arenas, AllNodes(), head, set p | p in s
    {
      j < |arenas| && forall i: nat {:trigger Taking(j, w, cnt, i, s, head)} :: i == n ==> Taking(j, w, cnt, i, s, head)
    }

    lemma UnderWayMeans(j: nat, w: nat, cnt: nat, n: nat, s: seq<Node>, head: Node)
      ensures UnderWay(j, w, cnt, n, s, head) <==> Taking(j, w, cnt, n, s, head)
    {
      var known := Taking(j, w, cnt, n, s, head);
    }

    /** One pass of the loop. */
    method TakeNextOfWindow(j: nat, w: nat, cnt: nat, n: nat, ghost s: seq<Node>, head: Node)
      requires UnderWay(j, w, cnt, n, s, head) && n < cnt
      modifies arenas[j], arenas[j].freeList, (set p | p in s), head
      ensures UnderWay(j, w, cnt, n + 1, s, head)
      ensures forall a :: a in arenas && a != arenas[j] ==> a.freeSeq == old(a.freeSeq)
    {
      UnderWayMeans(j, w, cnt, n, s, head);
      TakeOneOfWindow(j, w, cnt, n, s, head);
      UnderWayMeans(j, w, cnt, n + 1, s, head);
    }

    method TakeOneOfWindow(j: nat, w: nat, cnt: nat, n: nat, ghost s: seq<Node>, head: Node)
      requires Taking(j, w, cnt, n, s, head) && n < cnt
      modifies arenas[j], arenas[j].freeList, (set p | p in s), head
      ensures Taking(j, w, cnt, n + 1, s, head)
      ensures forall a :: a in arenas && a != arenas[j] ==> a.freeSeq == old(a.freeSeq)
    {
      var a := arenas[j];
      assert a in arenas && a.Valid();
      var idx := w + cnt - 1;
      var pg := a.pages[idx - n];
      ghost var chain := a.pages[w + cnt - n..w + cnt];
      ghost var k: nat :| k < |a.freeSeq| && a.freeSeq[k] == pg;
      NotTaken(s, chain);
      AllInWithout(s, chain);
      RemoveIsWithout(s, chain, pg, k);
      OccupyIn(j, pg, k, head, chain);
      a.PagesDistinct();
      WindowShrinks(a.pages, w, cnt, n, s, chain, pg);
    }

    /** "Allocate the run": moves the pages of the window, last one first, to a list of their own. */
    method TakeWindow(j: nat, w: nat, cnt: nat) returns (ret: nat, pages: Node?, ghost chain: seq<Node>)
      requires Valid() && cnt > 0 && j < |arenas| && Window(arenas[j], w, cnt)
      modifies arenas[j], arenas[j].freeList, arenas[j].freeSeq
      ensures Valid() && ret == cnt
      ensures chain == arenas[j].pages[w..w + cnt] && Chain(pages, chain) && HandedOut(chain)
      ensures arenas[j].freeSeq == Without(old(arenas[j].freeSeq), chain)
      ensures forall a :: a in arenas && a != arenas[j] ==> a.freeSeq == old(a.freeSeq)
    {
      var head := NewHead();
      ghost var s := arenas[j].freeSeq;
      ArenaValid(j);
      WithoutNone(s);
      assert arenas[j].pages[w + cnt..w + cnt] == [];
      UnderWayMeans(j, w, cnt, 0, s, head);
      ret := 0;
      var i := 0;
      while i < cnt
        invariant 0 <= i <= cnt && UnderWay(j, w, cnt, i, s, head) && fresh(head) && ret == i
        invariant forall a :: a in arenas && a != arenas[j] ==> a.freeSeq == old(a.freeSeq)
      {
        TakeNextOfWindow(j, w, cnt, i, s, head);
        ret := ret + 1;
        i := i + 1;
      }
      UnderWayMeans(j, w, cnt, cnt, s, head);
      pages, chain := WindowTaken(j, w, cnt, s, head);
    }

    method WindowTaken(j: nat, w: nat, cnt: nat, ghost s: seq<Node>, head: Node) returns (pages: Node, ghost chain: seq<Node>)
      requires Taking(j, w, cnt, cnt, s, head) && cnt > 0
      modifies set p | p in s
      ensures Valid() && chain == arenas[j].pages[w..w + cnt] && Chain(pages, chain) && HandedOut(chain)
      ensures arenas[j].freeSeq == Without(s, chain) && forall a :: a in arenas ==> a.freeSeq == old(a.freeSeq)
    {
      chain := arenas[j].pages[w..w + cnt];
      NotTaken(s, chain);
      assert arenas[j] in arenas && w + cnt - cnt == w;
      pages := Detach(j, head, chain);
    }

    /**
      Takes the lowest window of cnt free pages that ends before the last page of its arena, in the
      first arena that has one.  Returns 0, and changes nothing, exactly when no arena has one.
     */
    method AllocateContiguous(cnt: nat)
      returns (ret: nat, pages: Node?, ghost chain: seq<Node>, ghost j: nat, ghost w: nat)
      requires Valid() && cnt > 0
      modifies arenas, ListNodes()
      ensures Valid() && (ret == 0 || ret == cnt)
      ensures ret == 0 ==> old(forall i, v: nat :: 0 <= i < |arenas| ==> !Window(arenas[i], v, cnt))
      ensures ret == 0 ==> forall a :: a in arenas ==> a.freeSeq == old(a.freeSeq)
      ensures ret > 0 ==> j < |arenas| && old(Window(arenas[j], w, cnt))
      ensures ret > 0 ==> old(forall v :: 0 <= v < w ==> !Window(arenas[j], v, cnt))
      ensures ret > 0 ==> old(forall i, v: nat :: 0 <= i < j ==> !Window(arenas[i], v, cnt))
      ensures ret > 0 ==> chain == arenas[j].pages[w..w + cnt] && Chain(pages, chain) && HandedOut(chain)
      ensures ret > 0 ==> arenas[j].freeSeq == Without(old(arenas[j].freeSeq), chain)
      ensures ret > 0 ==> forall a :: a in arenas && a != arenas[j] ==> a.freeSeq == old(a.freeSeq)
    {
      ret, pages, chain := 0, null, [];
      var found, farena, start := FindWindow(cnt);
      j, w := farena, start;
      assert forall i, v: nat :: 0 <= i < |arenas| ==> old(Window(arenas[i], v, cnt)) == Window(arenas[i], v, cnt);
      if found {
        assert arenas[farena] in arenas;
        InListNodes(arenas[farena]);
        ret, pages, chain := TakeWindow(farena, start, cnt);
      }
    }

    /** The first `ret` free pages s[..ret] of the first arena are on the local list, newest first. */
    ghost predicate Progressed(head: Node, s: seq<Node>, ret: nat, chain: seq<Node>)
      reads this, arenas, AllNodes(), head, chain
    {
      && Valid() && arenas != [] && head !in AllNodes()
      && ret <= |s| && arenas[0].freeSeq == s[ret..] && Distinct(s)
      && (forall p :: p in s ==> p in arenas[0].pages)
      && chain == Reversed(s[..ret]) && Linked(head, chain)
    }

    /** `Progressed`, behind a quantifier: the loops only pass it on. */
    ghost predicate Progress(head: Node, s: seq<Node>, ret: nat, chain: seq<Node>)
      reads this, arenas, AllNodes(), head, chain
    {
      && arenas != [] && ret <= |s|
      && (forall r: nat {:trigger Progressed(head, s, r, chain)} :: r == ret ==> Progressed(head, s, r, chain))
    }

    lemma ProgressMeans(head: Node, s: seq<Node>, ret: nat, chain: seq<Node>)
      ensures Progress(head, s, ret, chain) <==> Progressed(head, s, ret, chain)
    {
      var known := Progressed(head, s, ret, chain);
    }
  }

  ghost function Reversed(s: seq<Node>): (r: seq<Node>)
    ensures |r| == |s| && forall i :: 0 <= i < |s| ==> r[i] == s[|s| - 1 - i]
  {
    if s == [] then [] else [s[|s| - 1]] + Reversed(s[..|s| - 1])
  }

  /** What the list of an arena with these pages becomes when the chain is given back. */
  ghost function GivenBack(pages: seq<Node>, chain: seq<Node>, s: seq<Node>): seq<Node> {
    if chain == [] then s
    else GivenBack(pages, chain[1..], if chain[0] in pages then [chain[0]] + s else s)
  }

  lemma {:induction false} GivenBackUndoes(pages: seq<Node>, s: seq<Node>, n: nat)
    requires n <= |s| && forall i :: 0 <= i < n ==> s[i] in pages
    ensures GivenBack(pages, Reversed(s[..n]), s[n..]) == s
  {
    if n > 0 {
      assert s[..n][..n - 1] == s[..n - 1];
      assert Reversed(s[..n]) == [s[n - 1]] + Reversed(s[..n - 1]);
      assert Reversed(s[..n])[1..] == Reversed(s[..n - 1]);
      assert [s[n - 1]] + s[n..] == s[n - 1..];
      GivenBackUndoes(pages, s, n - 1);
    }
  }

  lemma {:induction false} GivenBackElsewhere(pages: seq<Node>, chain: seq<Node>, s: seq<Node>)
    requires forall i :: 0 <= i < |chain| ==> chain[i] !in pages
    ensures GivenBack(pages, chain, s) == s
  {
    if chain != [] { GivenBackElsewhere(pages, chain[1..], s); }
  }

  /** cnt free pages from index w on, the last of them before the arena's last page. */
  ghost predicate Window(a: Arena, w: nat, cnt: nat)
    reads a
  {
    w + cnt < |a.pages| && forall k :: w <= k < w + cnt ==> a.pages[k] in a.freeSeq
  }

  /** s without the nodes of `gone`, in order. */
  ghost function Without(s: seq<Node>, gone: seq<Node>): seq<Node> {
    if s == [] then []
    else if s[0] in gone then Without(s[1..], gone)
    else [s[0]] + Without(s[1..], gone)
  }

  lemma {:induction false} WithoutNone(s: seq<Node>)
    ensures Without(s, []) == s
  {
    if s != [] { WithoutNone(s[1..]); }
  }

  lemma {:induction false} InWithout(s: seq<Node>, gone: seq<Node>, p: Node)
    ensures p in Without(s, gone) <==> p in s && p !in gone
  {
    if s != [] { InWithout(s[1..], gone, p); }
  }

  lemma AllInWithout(s: seq<Node>, gone: seq<Node>)
    ensures forall p :: p in Without(s, gone) ==> p in s
  {
    forall p | p in Without(s, gone)
      ensures p in s
    {
      InWithout(s, gone, p);
    }
  }

  lemma NotTaken(s: seq<Node>, gone: seq<Node>)
    ensures forall p :: p in gone ==> p !in Without(s, gone)
  {
    forall p | p in gone
      ensures p !in Without(s, gone)
    {
      InWithout(s, gone, p);
    }
  }

  lemma StillFree(pages: seq<Node>, w: nat, last: nat, s: seq<Node>, gone: seq<Node>)
    requires Distinct(pages) && w <= last < |pages|
    requires forall k :: w <= k <= last ==> pages[k] in Without(s, gone)
    ensures forall k :: w <= k < last ==> pages[k] in Without(s, [pages[last]] + gone)
  {
    forall k | w <= k < last
      ensures pages[k] in Without(s, [pages[last]] + gone)
    {
      InWithout(s, gone, pages[k]);
      InWithout(s, [pages[last]] + gone, pages[k]);
    }
  }

  /** One page less of the window is free, one more is on the local list. */
  lemma WindowShrinks(pages: seq<Node>, w: nat, cnt: nat, n: nat, s: seq<Node>, chain: seq<Node>, pg: Node)
    requires Distinct(pages) && n < cnt && w + cnt < |pages|
    requires chain == pages[w + cnt - n..w + cnt] && pg == pages[w + cnt - 1 - n]
    requires forall k :: w <= k < w + cnt - n ==> pages[k] in Without(s, chain)
    requires forall p :: p in chain ==> p in s
    ensures pages[w + cnt - (n + 1)..w + cnt] == [pg] + chain
    ensures forall k :: w <= k < w + cnt - (n + 1) ==> pages[k] in Without(s, [pg] + chain)
    ensures forall p :: p in [pg] + chain ==> p in s
  {
    StillFree(pages, w, w + cnt - 1 - n, s, chain);
    AllInWithout(s, chain);
    assert pages[w + cnt - 1 - n] in Without(s, chain);
  }

  /** Taking one more node out by position is taking it out by name. */
  lemma {:induction false} RemoveIsWithout(s: seq<Node>, gone: seq<Node>, p: Node, k: nat)
    requires Distinct(s) && k < |Without(s, gone)| && Without(s, gone)[k] == p
    ensures Without(s, gone)[..k] + Without(s, gone)[k + 1..] == Without(s, [p] + gone)
  {
    var rest := Without(s[1..], gone);
    if s[0] in gone {
      RemoveIsWithout(s[1..], gone, p, k);
    } else if k == 0 {
      assert s[0] == p;
      SameWithout(s[1..], gone, p);
    } else {
      InWithout(s[1..], gone, p);
      assert rest[k - 1] == p;
      RemoveIsWithout(s[1..], gone, p, k - 1);
      assert Without(s, gone)[..k] == [s[0]] + rest[..k - 1];
      assert Without(s, gone)[k + 1..] == rest[k..];
    }
  }

  lemma {:induction false} SameWithout(s: seq<Node>, gone: seq<Node>, p: Node)
    requires p !in s
    ensures Without(s, [p] + gone) == Without(s, gone)
  {
    if s != [] { SameWithout(s[1..], gone, p); }
  }

  /** The index of the first arena of larger priority, or the number of arenas. */
  function FirstLarger(arenas: seq<Arena>, priority: int): (i: nat)
    ensures i <= |arenas|
  {
    if arenas == [] || arenas[0].priority > priority then 0 else 1 + FirstLarger(arenas[1..], priority)
  }

  function Inserted(arenas: seq<Arena>, arena: Arena): seq<Arena> {
    var i := FirstLarger(arenas, arena.priority);
    var at := if i == |arenas| then 0 else i;
    arenas[..at] + [arena] + arenas[at..]
  }

  lemma {:induction false} FirstLargerIs(arenas: seq<Arena>, priority: int, i: nat)
    requires i <= |arenas| && (i < |arenas| ==> arenas[i].priority > priority)
    requires forall k :: 0 <= k < i ==> arenas[k].priority <= priority
    ensures FirstLarger(arenas, priority) == i
  {
    if i > 0 { FirstLargerIs(arenas[1..], priority, i - 1); }
  }

  predicate Ordered(arenas: seq<Arena>) {
    forall i, j :: 0 <= i < j < |arenas| ==> arenas[i].priority <= arenas[j].priority
  }

  /**
    The list stays ordered by priority exactly when some arena in it has a larger priority than the new
    one, or all have the same.
   */
  lemma InsertedOrdered(arenas: seq<Arena>, arena: Arena)
    requires Ordered(arenas)
    ensures Ordered(Inserted(arenas, arena)) <==>
      || (exists b :: b in arenas && b.priority > arena.priority)
      || (forall b :: b in arenas ==> b.priority == arena.priority)
  {
    var i := FirstLarger(arenas, arena.priority);
    FirstLargerSplits(arenas, arena.priority);
    if i < |arenas| {
      BetweenOrdered(arenas, arena, i);
      assert arenas[i] in arenas;
    } else {
      assert arenas[..0] + [arena] + arenas[0..] == [arena] + arenas;
      assert forall b :: b in arenas ==> b.priority <= arena.priority;
      FrontOrdered(arenas, arena);
    }
  }

  lemma BetweenOrdered(arenas: seq<Arena>, arena: Arena, i: nat)
    requires Ordered(arenas) && i < |arenas| && arenas[i].priority > arena.priority
    requires forall k :: 0 <= k < i ==> arenas[k].priority <= arena.priority
    ensures Ordered(arenas[..i] + [arena] + arenas[i..])
  {
    var s := arenas[..i] + [arena] + arenas[i..];
    assert forall k :: 0 <= k < |s| ==> s[k] == if k < i then arenas[k] else if k == i then arena else arenas[k - 1];
  }

  lemma FrontOrdered(arenas: seq<Arena>, arena: Arena)
    requires Ordered(arenas)
    ensures Ordered([arena] + arenas) <==> forall b :: b in arenas ==> arena.priority <= b.priority
  {
    var s := [arena] + arenas;
    assert forall k :: 0 <= k < |arenas| ==> s[k + 1] == arenas[k] && arenas[k] in arenas;
    if Ordered(s) {
      forall b | b in arenas
        ensures arena.priority <= b.priority
      {
        var k :| 0 <= k < |arenas| && arenas[k] == b;
        assert s[0] == arena && s[k + 1] == b;
      }
    }
  }

  lemma {:induction false} FirstLargerSplits(arenas: seq<Arena>, priority: int)
    ensures var i := FirstLarger(arenas, priority);
      && (forall k :: 0 <= k < i ==> arenas[k].priority <= priority)
      && (i < |arenas| ==> arenas[i].priority > priority)
  {
    if arenas != [] && arenas[0].priority <= priority { FirstLargerSplits(arenas[1..], priority); }
  }

  /** Priority 2 after priority 1: the list of the two is out of order. */
  lemma LargestGoesFirst(low: Arena, high: Arena)
    requires low.priority == 1 && high.priority == 2
    ensures Inserted([low], high) == [high, low] && !Ordered(Inserted([low], high))
  {
    assert [low][1..] == [];
    assert FirstLarger([low], 2) == 1;
    assert Inserted([low], high)[0].priority > Inserted([low], high)[1].priority;
  }

  /** cnt free pages from index w on, wherever they end. */
  ghost predicate FreeRun(a: Arena, w: nat, cnt: nat)
    reads a
  {
    w + cnt <= |a.pages| && forall k :: w <= k < w + cnt ==> a.pages[k] in a.freeSeq
  }

  /** An arena that has a run of cnt free pages is passed over exactly when it has just one, at its end. */
  lemma RunIsMissed(a: Arena, cnt: nat)
    requires exists w: nat :: FreeRun(a, w, cnt)
    ensures (forall w: nat :: !Window(a, w, cnt)) <==> forall w: nat :: FreeRun(a, w, cnt) ==> w + cnt == |a.pages|
  {
    if forall w: nat :: !Window(a, w, cnt) {
      forall w: nat | FreeRun(a, w, cnt)
        ensures w + cnt == |a.pages|
      {
        assert !Window(a, w, cnt);
      }
    } else {
      var w: nat :| Window(a, w, cnt);
      assert FreeRun(a, w, cnt);
    }
  }

  /** An arena of one free page: one page is asked for and none is found. */
  lemma OnePageIsMissed(a: Arena)
    requires a.Valid() && |a.pages| == 1 && a.free == 1
    ensures FreeRun(a, 0, 1) && forall w: nat :: !Window(a, w, 1)
  {
    assert a.freeSeq[0] in a.freeSeq && a.freeSeq[0] in a.pages;
  }
}
