/**
 The intrusive circular list.  A list is a sentinel followed by its elements; the ghost sequence
 `ring` starts with the sentinel and follows the `next` links once around.
 */
module RingList {
  import opened Basics

  class ListNode {
    var prev: ListNode?
    var next: ListNode?

    constructor ()
    {
      prev, next := null, null;
    }
  }

  /** Index of the next node once around. */
  function After(i: nat, n: nat): nat {
    if i + 1 < n then i + 1 else 0
  }

  /** The links run around the ring, forwards and backwards. */
  ghost predicate Ring(ring: seq<ListNode>)
    reads ring
  {
    && |ring| > 0 && Distinct(ring)
    && forall i :: 0 <= i < |ring| ==>
         ring[i].next == ring[After(i, |ring|)] && ring[After(i, |ring|)].prev == ring[i]
  }

  method InitList(l: ListNode)
    modifies l
    ensures Ring([l])
  {
    l.next := l;
    l.prev := l;
  }

  /** `insert_list_front` (`PUSH_FRONT`): despite its name the element becomes the tail. */
  method InsertListFront(e: ListNode, l: ListNode, ghost ring: seq<ListNode>)
    requires Ring(ring) && ring[0] == l && e !in ring
    modifies e, ring
    ensures Ring(ring + [e])
  {
    assert ring[After(|ring| - 1, |ring|)] == l;
    e.next := l;
    e.prev := l.prev;
    l.prev.next := e;
    l.prev := e;
  }

  /** `insert_list_end` (`PUSH_BACK`): despite its name the element becomes the head. */
  method InsertListEnd(e: ListNode, l: ListNode, ghost ring: seq<ListNode>)
    requires Ring(ring) && ring[0] == l && e !in ring
    modifies e, ring
    ensures Ring([l, e] + ring[1..])
  {
    ghost var n := |ring|;
    assert l.next == ring[After(0, n)];
    e.next := l.next;
    e.prev := l;
    l.next.prev := e;
    l.next := e;
    ghost var r := [l, e] + ring[1..];
    forall i | 0 <= i < |r| ensures r[i].next == r[After(i, |r|)] && r[After(i, |r|)].prev == r[i] {
      if i >= 2 {
        assert r[i] == ring[i - 1] && r[After(i, |r|)] == ring[After(i - 1, n)];
      }
    }
  }

  lemma StaysDistinct(ring: seq<ListNode>, k: nat)
    requires Distinct(ring) && k < |ring|
    ensures Distinct(ring[..k] + ring[k + 1..])
  {
  }

  /** The two writes of a removal. */
  method Unlink(e: ListNode, ghost ring: seq<ListNode>, ghost k: nat)
    requires Ring(ring) && 0 < k < |ring| && ring[k] == e
    modifies ring
    ensures Ring(ring[..k] + ring[k + 1..])
    ensures e.next == old(e.next) && e.prev == old(e.prev)
  {
    ghost var n := |ring|;
    assert ring[After(k - 1, n)] == e && e.prev == ring[k - 1] && e.next == ring[After(k, n)];
    e.prev.next := e.next;
    e.next.prev := e.prev;
    ghost var r := ring[..k] + ring[k + 1..];
    StaysDistinct(ring, k);
    forall i | 0 <= i < |r| ensures r[i].next == r[After(i, |r|)] && r[After(i, |r|)].prev == r[i] {
      ghost var j := if i < k then i else i + 1;
      assert r[i] == ring[j];
      assert r[After(i, |r|)] == if i == k - 1 then ring[After(k, n)] else ring[After(j, n)];
    }
  }

  /** Removing any element deletes just that element from the ring; with `cleanup` it becomes a ring of its own. */
  method RemoveListNode(e: ListNode, cleanup: bool, ghost ring: seq<ListNode>, ghost k: nat)
    requires Ring(ring) && 0 < k < |ring| && ring[k] == e
    modifies ring
    ensures Ring(ring[..k] + ring[k + 1..])
    ensures cleanup ==> Ring([e])
    ensures !cleanup ==> e.next == old(e.next) && e.prev == old(e.prev)
  {
    Unlink(e, ring, k);
    if cleanup {
      assert e !in ring[..k] + ring[k + 1..];
      InitList(e);
    }
  }

  method ListHead(l: ListNode, ghost ring: seq<ListNode>) returns (head: ListNode?)
    requires Ring(ring) && ring[0] == l
    ensures head == ring[After(0, |ring|)]
  {
    head := l.next;
  }

  method ListTail(l: ListNode, ghost ring: seq<ListNode>) returns (tail: ListNode?)
    requires Ring(ring) && ring[0] == l
    ensures tail == ring[|ring| - 1]
  {
    assert ring[After(|ring| - 1, |ring|)] == l;
    tail := l.prev;
  }

  /** `MG_LIST_EMPTY` looks only at the sentinel's back link. */
  method IsEmpty(l: ListNode, ghost ring: seq<ListNode>) returns (empty: bool)
    requires Ring(ring) && ring[0] == l
    ensures empty <==> ring == [l]
  {
    assert ring[After(|ring| - 1, |ring|)] == l;
    empty := l == l.prev;
    assert |ring| == 1 ==> ring == [l];
  }

  function Before(i: nat, n: nat): nat
    requires n > 0
  {
    if i == 0 then n - 1 else i - 1
  }

  ghost predicate FixedLinks(ring: seq<ListNode>)
    reads ring
  {
    forall i :: 0 <= i < |ring| ==>
      ring[i].next == ring[After(i, |ring|)] && ring[i].prev == ring[Before(i, |ring|)]
  }

  /** The sequence fixes every link of the ring. */
  lemma RingFixesLinks(ring: seq<ListNode>)
    requires Ring(ring)
    ensures FixedLinks(ring)
  {
    forall i | 0 <= i < |ring| ensures ring[i].prev == ring[Before(i, |ring|)] {
      assert After(Before(i, |ring|), |ring|) == i;
    }
  }

  /** Insert at either end, then remove: every link of the list is as before. */
  method InsertThenRemove(e: ListNode, l: ListNode, atTail: bool, cleanup: bool, ghost ring: seq<ListNode>)
    requires Ring(ring) && ring[0] == l && e !in ring
    modifies e, ring
    ensures Ring(ring)
    ensures forall i :: 0 <= i < |ring| ==> ring[i].next == old(ring[i].next) && ring[i].prev == old(ring[i].prev)
  {
    RingFixesLinks(ring);
    if atTail {
      InsertListFront(e, l, ring);
      ghost var r := ring + [e];
      assert r[..|ring|] + r[|ring| + 1..] == ring;
      RemoveListNode(e, cleanup, r, |ring|);
    } else {
      InsertListEnd(e, l, ring);
      ghost var r := [l, e] + ring[1..];
      assert r[..1] + r[2..] == ring;
      RemoveListNode(e, cleanup, r, 1);
    }
    RingFixesLinks(ring);
  }
}
