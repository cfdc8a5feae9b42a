/**
  The intrusive doubly linked list.  A list is a head node and the entries after it; the last `next`
  is NULL and the first entry's `prev` is the head.  `Linked(head, s)` ties the pointers to the
  sequence s of entries.
 */
module LinkedList {

  /** A `page_t`: its list node is its first member, so the two share an address. */
  class Node {
    var prev: Node?
    var next: Node?
    var flags: nat
    const addr: nat

    /** `INIT_LLIST`. */
    constructor (addr: nat)
      ensures next == null && prev == this && flags == 0 && this.addr == addr
    {
      prev, next, flags := this, null, 0;
      this.addr := addr;
    }
  }

  ghost predicate Distinct(s: seq<Node>) {
    forall i, j :: 0 <= i < j < |s| ==> s[i] != s[j]
  }

  ghost predicate Linked(head: Node, s: seq<Node>)
    reads head, s
  {
    && head !in s && Distinct(s)
    && head.next == (if s == [] then null else s[0])
    && (forall i {:trigger s[i].next} :: 0 <= i < |s| ==> s[i].next == if i + 1 < |s| then s[i + 1] else null)
    && (forall i {:trigger s[i].prev} :: 0 <= i < |s| ==> s[i].prev == if i == 0 then head else s[i - 1])
  }

  /** A list without a head: what the allocator hands out.  Its first node is its own predecessor. */
  ghost predicate Chain(first: Node?, s: seq<Node>)
    reads s
  {
    && first != null && s != [] && first == s[0] && Distinct(s)
    && (forall i {:trigger s[i].next} :: 0 <= i < |s| ==> s[i].next == if i + 1 < |s| then s[i + 1] else null)
    && (forall i {:trigger s[i].prev} :: 0 <= i < |s| ==> s[i].prev == if i == 0 then s[0] else s[i - 1])
  }

  /** `list_append` puts the node just after `at`, which is the head or an entry. */
  method ListAppend(at: Node, node: Node, ghost head: Node, ghost s: seq<Node>, ghost i: nat)
    requires Linked(head, s) && i <= |s| && at == (if i == 0 then head else s[i - 1])
    requires node != head && node !in s
    modifies head`next, node`next, node`prev, (set n | n in s)`next, (set n | n in s)`prev
    ensures Linked(head, s[..i] + [node] + s[i..])
    ensures head.prev == old(head.prev)
  {
    assert at.next == if i < |s| then s[i] else null;
    if at.next != null { at.next.prev := node; }
    node.next := at.next;
    node.prev := at;
    at.next := node;
  }

  /** `list_remove` unlinks the entry and leaves its own pointers as they were. */
  method ListRemove(node: Node, ghost head: Node, ghost s: seq<Node>, ghost i: nat)
    requires Linked(head, s) && i < |s| && s[i] == node
    modifies head`next, (set n | n in s)`next, (set n | n in s)`prev
    ensures Linked(head, s[..i] + s[i + 1..])
    ensures node.next == old(node.next) && node.prev == old(node.prev)
  {
    assert s[i].prev == if i == 0 then head else s[i - 1];
    assert s[i].next == if i + 1 < |s| then s[i + 1] else null;
    node.prev.next := node.next;
    if node.next != null { node.next.prev := node.prev; }
  }

  /** An entry is never its own predecessor: only a node on no list looks like that. */
  lemma EntryHasPredecessor(head: Node, s: seq<Node>, i: nat)
    requires Linked(head, s) && i < |s|
    ensures s[i].prev != s[i] && s[i].prev == if i == 0 then head else s[i - 1]
  {
    assert s[i].prev == if i == 0 then head else s[i - 1];
  }
}
