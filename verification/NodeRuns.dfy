/**
  Runs of the page allocator.  Between the calls of a run some chains are out: handed out and not yet
  given back.  `Holds` is what every call keeps, whatever order the calls come in.
 */
module NodeRuns {
  import opened Bitmap
  import opened LinkedList
  import opened NodeAllocator

  ghost function PagesOf(held: seq<seq<Node>>): set<Node> {
    set c, p | c in held && p in c :: p
  }

  /** The pages of all arenas that are on no list. */
  ghost function OffList(node: PmmNode): set<Node>
    reads node, node.arenas
  {
    set p | p in node.AllPages() && node.OnNoList(p)
  }

  ghost predicate Intact(c: seq<Node>)
    reads set p | p in c
  {
    c != [] && Chain(c[0], c)
  }

  /** The chains are intact and share no page. */
  ghost predicate Out(held: seq<seq<Node>>)
    reads PagesOf(held)
  {
    && (forall i :: 0 <= i < |held| ==> Intact(held[i]))
    && (forall i, j, p :: 0 <= i < j < |held| && p in held[i] ==> p !in held[j])
  }

  /** Every page is on its arena's list, in exactly one chain, or reserved: no page is lost or given twice. */
  ghost predicate Holds(node: PmmNode, held: seq<seq<Node>>, reserved: set<Node>)
    reads node, node.arenas, node.AllNodes(), PagesOf(held)
  {
    && node.Valid() && Out(held)
    && OffList(node) == reserved + PagesOf(held) && reserved !! PagesOf(held)
  }

  lemma HeldAreOffList(node: PmmNode, held: seq<seq<Node>>, reserved: set<Node>)
    requires Holds(node, held, reserved)
    ensures PagesOf(held) !! node.ListNodes()
    ensures forall i :: 0 <= i < |held| ==> node.HandedOut(held[i]) && forall p :: p in held[i] ==> p in PagesOf(held)
  {
    forall i | 0 <= i < |held|
      ensures node.HandedOut(held[i]) && forall p :: p in held[i] ==> p in PagesOf(held)
    {
      assert forall p :: p in held[i] ==> held[i] in held && p in PagesOf(held);
      assert forall p :: p in held[i] ==> p in OffList(node);
    }
    forall p | p in PagesOf(held)
      ensures p !in node.ListNodes()
    {
      assert p in OffList(node);
      OffListMisses(node, p);
    }
  }

  lemma OffListMisses(node: PmmNode, p: Node)
    requires node.Valid() && p in OffList(node)
    ensures p !in node.ListNodes()
  {
    node.ListsMiss([p]);
    forall a | a in node.arenas
      ensures p != a.freeList && p !in a.freeSeq
    {
      var j :| 0 <= j < |node.arenas| && node.arenas[j] == a;
      assert p in [p];
    }
  }

  lemma PagesOfMore(held: seq<seq<Node>>, c: seq<Node>)
    ensures PagesOf(held + [c]) == PagesOf(held) + set p | p in c
  {
    assert forall d :: d in held ==> d in held + [c];
    assert c in held + [c];
  }

  lemma OneMore(node: PmmNode, held: seq<seq<Node>>, reserved: set<Node>, chain: seq<Node>, off: set<Node>)
    requires node.Valid() && Out(held) && Intact(chain)
    requires off == reserved + PagesOf(held) && reserved !! PagesOf(held)
    requires OffList(node) == off + (set p | p in chain) && off !! set p | p in chain
    ensures Holds(node, held + [chain], reserved)
  {
    PagesOfMore(held, chain);
    forall i, p | 0 <= i < |held| && p in held[i]
      ensures p !in chain
    {
      assert held[i] in held && p in PagesOf(held);
    }
  }

  lemma TwoParts(s: seq<Node>, n: nat)
    requires n <= |s|
    ensures forall p :: p in s <==> p in s[n..] || p in Reversed(s[..n])
  {
    var r := Reversed(s[..n]);
    forall p
      ensures p in s <==> p in s[n..] || p in r
    {
      assert s == s[..n] + s[n..];
      assert forall i :: 0 <= i < n ==> r[n - 1 - i] == s[i];
      if p in s[..n] {
        var i :| 0 <= i < n && s[..n][i] == p;
        assert r[n - 1 - i] == p;
      }
    }
  }

  /** What one arena's list loses, the pages on no list gain. */
  lemma TakenFromFirst(node: PmmNode, off: set<Node>, lists: map<Arena, seq<Node>>, j: nat, chain: seq<Node>)
    requires node.Valid() && j < |node.arenas|
    requires forall a :: a in node.arenas ==> a in lists
    requires off == set p | p in node.AllPages() && forall a :: a in node.arenas ==> p !in lists[a]
    requires forall a :: a in node.arenas && a != node.arenas[j] ==> a.freeSeq == lists[a]
    requires forall p :: p in lists[node.arenas[j]] <==> p in node.arenas[j].freeSeq || p in chain
    requires node.HandedOut(chain)
    ensures OffList(node) == off + (set p | p in chain) && off !! set p | p in chain
  {
    assert node.arenas[j] in node.arenas;
    forall p | p in node.AllPages()
      ensures node.OnNoList(p) <==> p in off || p in chain
    {
    }
  }

  /** Where every run starts. */
  method Start() returns (node: PmmNode)
    ensures fresh(node) && node.arenas == [] && Holds(node, [], {})
  {
    node := new PmmNode();
  }

  /** An allocation changes nothing about the chains that are out. */
  method AllocateInRun(node: PmmNode, cnt: nat, ghost held: seq<seq<Node>>, ghost reserved: set<Node>)
    returns (ret: nat, pages: Node, ghost chain: seq<Node>)
    requires Holds(node, held, reserved) && cnt > 0 && node.arenas != [] && node.arenas[0].freeSeq != []
    modifies node.arenas, node.ListNodes()
    ensures Holds(node, held + [chain], reserved) && chain != [] && pages == chain[0] && ret == |chain|
  {
    HeldAreOffList(node, held, reserved);
    node.InListNodes(node.arenas[0]);
    ghost var lists := map a | a in node.arenas :: a.freeSeq;
    ghost var off := OffList(node);
    var first;
    ret, first, chain := node.Allocate(cnt);
    pages := first;
    TwoParts(lists[node.arenas[0]], ret);
    TakenFromFirst(node, off, lists, 0, chain);
    OneMore(node, held, reserved, chain, off);
  }

  /** What `AllocateContiguous` means for the pages that are on no list. */
  method TakeContiguous(node: PmmNode, cnt: nat) returns (ret: nat, pages: Node?, ghost chain: seq<Node>)
    requires node.Valid() && cnt > 0
    modifies node.arenas, node.ListNodes()
    ensures node.Valid() && (ret == 0 ==> OffList(node) == old(OffList(node)))
    ensures ret > 0 ==> ret == cnt == |chain| && Intact(chain) && pages == chain[0]
    ensures ret > 0 ==>
      OffList(node) == old(OffList(node)) + (set p | p in chain) && old(OffList(node)) !! set p | p in chain
  {
    ghost var lists := map a | a in node.arenas :: a.freeSeq;
    ghost var off := OffList(node);
    ghost var j, w;
    ret, pages, chain, j, w := node.AllocateContiguous(cnt);
    if ret > 0 {
      ghost var s := lists[node.arenas[j]];
      WindowSplits(s, node.arenas[j].pages, w, cnt);
      TakenFromFirst(node, off, lists, j, chain);
    } else {
      SameLists(node, off, lists);
    }
  }

  /** A contiguous allocation that succeeds puts one more chain out; one that fails changes nothing. */
  method AllocateContiguousInRun(node: PmmNode, cnt: nat, ghost held: seq<seq<Node>>, ghost reserved: set<Node>)
    returns (ret: nat, pages: Node?, ghost chain: seq<Node>)
    requires Holds(node, held, reserved) && cnt > 0
    modifies node.arenas, node.ListNodes()
    ensures ret == 0 ==> Holds(node, held, reserved)
    ensures ret > 0 ==> Holds(node, held + [chain], reserved) && |chain| == ret == cnt && pages == chain[0]
  {
    HeldAreOffList(node, held, reserved);
    ghost var off := OffList(node);
    ret, pages, chain := TakeContiguous(node, cnt);
    assert Out(held);
    if ret > 0 { OneMore(node, held, reserved, chain, off); }
  }

  lemma WindowSplits(s: seq<Node>, pages: seq<Node>, w: nat, cnt: nat)
    requires w + cnt <= |pages| && forall k :: w <= k < w + cnt ==> pages[k] in s
    ensures var gone := pages[w..w + cnt]; forall p :: p in s <==> p in Without(s, gone) || p in gone
  {
    var gone := pages[w..w + cnt];
    assert forall p :: p in gone ==> p in s;
    forall p
      ensures p in s <==> p in Without(s, gone) || p in gone
    {
      InWithout(s, gone, p);
    }
  }

  lemma SameLists(node: PmmNode, off: set<Node>, lists: map<Arena, seq<Node>>)
    requires forall a :: a in node.arenas ==> a in lists && a.freeSeq == lists[a]
    requires off == set p | p in node.AllPages() && forall a :: a in node.arenas ==> p !in lists[a]
    ensures OffList(node) == off
  {
  }

  /** Any chain that is out can be given back, in any order; the others stay as they are. */
  method FreeInRun(node: PmmNode, first: Node, ghost k: nat, ghost held: seq<seq<Node>>, ghost reserved: set<Node>)
    returns (ret: nat)
    requires Holds(node, held, reserved) && k < |held| && first == held[k][0]
    modifies node.arenas, node.ListNodes(), set p | p in held[k]
    ensures Holds(node, held[..k] + held[k + 1..], reserved) && ret == |held[k]|
  {
    HeldAreOffList(node, held, reserved);
    ghost var lists := map a | a in node.arenas :: a.freeSeq;
    ghost var off := OffList(node);
    var rest;
    ret, rest := node.Free(first, held[k]);
    GivenBackSplits(node, off, lists, held[k]);
    OneLess(node, held, reserved, k, off);
  }

  lemma {:induction false} InGivenBack(pages: seq<Node>, chain: seq<Node>, s: seq<Node>, p: Node)
    ensures p in GivenBack(pages, chain, s) <==> p in s || (p in chain && p in pages)
  {
    if chain != [] {
      InGivenBack(pages, chain[1..], if chain[0] in pages then [chain[0]] + s else s, p);
    }
  }

  lemma GivenBackSplits(node: PmmNode, off: set<Node>, lists: map<Arena, seq<Node>>, chain: seq<Node>)
    requires forall a :: a in node.arenas ==> a in lists && a.freeSeq == GivenBack(a.pages, chain, lists[a])
    requires off == set p | p in node.AllPages() && forall a :: a in node.arenas ==> p !in lists[a]
    ensures OffList(node) == off - set p | p in chain
  {
    forall p | p in node.AllPages()
      ensures node.OnNoList(p) <==> p in off && p !in chain
    {
      forall a | a in node.arenas
        ensures p in a.freeSeq <==> p in lists[a] || (p in chain && p in a.pages)
      {
        InGivenBack(a.pages, chain, lists[a], p);
      }
    }
  }

  lemma OneLess(node: PmmNode, held: seq<seq<Node>>, reserved: set<Node>, k: nat, off: set<Node>)
    requires node.Valid() && k < |held|
    requires forall i :: 0 <= i < |held| && i != k ==> Intact(held[i])
    requires forall i, j, p :: 0 <= i < j < |held| && p in held[i] ==> p !in held[j]
    requires off == reserved + PagesOf(held) && reserved !! PagesOf(held)
    requires OffList(node) == off - set p | p in held[k]
    ensures Holds(node, held[..k] + held[k + 1..], reserved)
  {
    var rest := held[..k] + held[k + 1..];
    assert held[k] in held;
    forall p
      ensures p in PagesOf(rest) <==> p in PagesOf(held) && p !in held[k]
    {
      if p in PagesOf(rest) {
        var i :| 0 <= i < |rest| && p in rest[i];
        assert held[if i < k then i else i + 1] == rest[i];
      }
      if p in PagesOf(held) && p !in held[k] {
        var i :| 0 <= i < |held| && p in held[i];
        assert rest[if i < k then i else i - 1] == held[i];
      }
    }
    assert forall i :: 0 <= i < |rest| ==> rest[i] == held[if i < k then i else i + 1];
  }

  method TakeArena(node: PmmNode, arena: Arena, bt: Bitmap?)
    requires node.Valid() && arena.Shaped() && node.Separate(arena)
    requires arena.Covered(bt)
    modifies node, arena, arena.Nodes()
    ensures node.Valid() && OffList(node) == old(OffList(node) + Marked(arena.pages, Taken(bt, arena.FirstFrame())))
  {
    ghost var off := OffList(node);
    ghost var arenas := node.arenas;
    ghost var lists := map a | a in node.arenas :: a.freeSeq;
    OffListIs(node, lists);
    ghost var taken := Taken(bt, arena.FirstFrame());
    node.AddArena(arena, bt);
    ArenaAdded(node, off, arenas, lists, arena, taken);
  }

  lemma OffListIs(node: PmmNode, lists: map<Arena, seq<Node>>)
    requires forall a :: a in node.arenas ==> a in lists && a.freeSeq == lists[a]
    ensures forall p :: p in OffList(node) <==>
      (exists a :: a in node.arenas && p in a.pages) && forall a :: a in node.arenas ==> p !in lists[a]
  {
  }

  /** A new arena adds its free pages to the lists; those the bitmap marks are reserved. */
  method AddArenaInRun(node: PmmNode, arena: Arena, bt: Bitmap?, ghost held: seq<seq<Node>>, ghost reserved: set<Node>)
    requires Holds(node, held, reserved) && arena.Shaped() && node.Separate(arena)
    requires arena.Covered(bt)
    modifies node, arena, arena.Nodes()
    ensures Holds(node, held, reserved + old(Marked(arena.pages, Taken(bt, arena.FirstFrame()))))
  {
    HeldAreElsewhere(node, arena, held, reserved);
    TakeArena(node, arena, bt);
    assert Out(held);
  }

  lemma HeldAreElsewhere(node: PmmNode, arena: Arena, held: seq<seq<Node>>, reserved: set<Node>)
    requires Holds(node, held, reserved) && node.Separate(arena)
    ensures PagesOf(held) !! arena.Nodes()
  {
    forall p | p in PagesOf(held)
      ensures p !in arena.Nodes()
    {
      assert p in OffList(node);
      var a :| a in node.arenas && p in a.pages;
      assert TwoApart(a, arena) && p in a.Nodes();
    }
  }

  /** The pages whose bit is set. */
  ghost function Marked(pages: seq<Node>, taken: set<nat>): set<Node> {
    set i | 0 <= i < |pages| && i in taken :: pages[i]
  }

  lemma {:induction false} InFreePages(pages: seq<Node>, taken: set<nat>, n: nat, i: nat)
    requires Distinct(pages) && n <= |pages| && i < |pages|
    ensures pages[i] in FreePages(pages, taken, n) <==> i < n && i !in taken
  {
    if n > 0 { InFreePages(pages, taken, n - 1, i); }
  }

  /** A page is on no list but its own arena's. */
  lemma OnlyOwnList(node: PmmNode, a: Arena, b: Arena, p: Node)
    requires node.Valid() && a in node.arenas && b in node.arenas && p in a.pages && p in b.freeSeq
    ensures a == b
  {
    var i :| 0 <= i < |node.arenas| && node.arenas[i] == a;
    var j :| 0 <= j < |node.arenas| && node.arenas[j] == b;
    assert a.Valid() && b.Valid();
    assert p in a.Nodes() && p in b.Nodes();
  }

  lemma MembersInserted(arenas: seq<Arena>, arena: Arena)
    ensures forall a :: a in Inserted(arenas, arena) <==> a in arenas || a == arena
  {
    var i := FirstLarger(arenas, arena.priority);
    var at := if i == |arenas| then 0 else i;
    assert arenas == arenas[..at] + arenas[at..];
  }

  lemma ArenaAdded(node: PmmNode, off: set<Node>, arenas: seq<Arena>, lists: map<Arena, seq<Node>>, arena: Arena, taken: set<nat>)
    requires node.Valid() && node.arenas == Inserted(arenas, arena) && arena !in arenas
    requires arena.freeSeq == FreePages(arena.pages, taken, |arena.pages|)
    requires forall a :: a in arenas ==> a in lists && a.freeSeq == lists[a]
    requires forall p :: p in off <==> (exists a :: a in arenas && p in a.pages) && forall a :: a in arenas ==> p !in lists[a]
    ensures OffList(node) == off + Marked(arena.pages, taken)
  {
    MembersInserted(arenas, arena);
    assert arena in node.arenas && arena.Valid();
    arena.PagesDistinct();
    forall p, a | a in node.arenas && p in a.pages
      ensures p in OffList(node) <==> p in off || p in Marked(arena.pages, taken)
    {
      PageAfter(node, off, arenas, lists, arena, taken, a, p);
    }
    assert forall p :: p in Marked(arena.pages, taken) ==> p in arena.pages;
  }

  lemma PageAfter(node: PmmNode, off: set<Node>, arenas: seq<Arena>, lists: map<Arena, seq<Node>>, arena: Arena,
                  taken: set<nat>, a: Arena, p: Node)
    requires node.Valid() && arena !in arenas && Distinct(arena.pages)
    requires forall b :: b in node.arenas <==> b in arenas || b == arena
    requires arena.freeSeq == FreePages(arena.pages, taken, |arena.pages|)
    requires forall b :: b in arenas ==> b in lists && b.freeSeq == lists[b]
    requires forall p :: p in off <==> (exists b :: b in arenas && p in b.pages) && forall b :: b in arenas ==> p !in lists[b]
    requires a in node.arenas && p in a.pages
    ensures p in OffList(node) <==> p in off || p in Marked(arena.pages, taken)
  {
    forall b | b in node.arenas && p in b.freeSeq
      ensures a == b
    {
      OnlyOwnList(node, a, b, p);
    }
    assert p in node.AllPages();
    assert p in OffList(node) <==> p !in a.freeSeq;
    if a == arena {
      var i :| 0 <= i < |a.pages| && a.pages[i] == p;
      InFreePages(a.pages, taken, |a.pages|, i);
      OwnPage(node, arenas, arena, p);
    } else {
      assert arena in node.arenas;
      if p in Marked(arena.pages, taken) { OwnPage(node, arenas, arena, p); }
    }
  }

  lemma OwnPage(node: PmmNode, arenas: seq<Arena>, arena: Arena, p: Node)
    requires node.Apart() && arena !in arenas && arena in node.arenas && p in arena.pages
    requires forall b :: b in arenas ==> b in node.arenas
    ensures forall b :: b in arenas ==> p !in b.pages
  {
    var i :| 0 <= i < |node.arenas| && node.arenas[i] == arena;
    forall b | b in arenas
      ensures p !in b.pages
    {
      var j :| 0 <= j < |node.arenas| && node.arenas[j] == b;
      assert if i < j then TwoApart(node.arenas[i], node.arenas[j]) else TwoApart(node.arenas[j], node.arenas[i]);
      assert p in arena.Nodes() && arena.Nodes() !! b.Nodes();
    }
  }
}
