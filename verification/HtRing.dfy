/** The circular doubly linked list of src/nc_hashtable.c that all pairs of a table live on. */
module HtRing {
  // void *; the null pointer is 0
  type Ptr = nat
  const NULL: Ptr := 0

  /** A pair together with the list node inside it. The list head in the table is such an
      object too; its key, hash and value are never looked at. */
  class Link {
    const key: Ptr
    const hash: nat
    var value: Ptr
    var prev: Link
    var next: Link

    constructor (key: Ptr, hash: nat, value: Ptr)
      ensures this.key == key && this.hash == hash && this.value == value
      ensures prev == this && next == this
    {
      this.key := key;
      this.hash := hash;
      this.value := value;
      prev := this;
      next := this;
    }
  }

  /** Number i on the way round: 0 and |order| + 1 are the head. */
  ghost function Nth(head: Link, order: seq<Link>, i: nat): Link
    requires i <= |order| + 1
  {
    if i == 0 || i == |order| + 1 then head else order[i - 1]
  }

  ghost predicate Different(head: Link, order: seq<Link>) {
    && head !in order
    && forall i, j :: 0 <= i < j < |order| ==> order[i] != order[j]
  }

  ghost predicate Ring(head: Link, order: seq<Link>)
    reads head`prev, head`next, order`prev, order`next
  {
    && Different(head, order)
    && forall i :: 0 <= i <= |order| ==>
         && Nth(head, order, i).next == Nth(head, order, i + 1)
         && Nth(head, order, i + 1).prev == Nth(head, order, i)
  }

  /** list_init */
  method Init(list: Link)
    modifies list`prev, list`next
    ensures Ring(list, [])
  {
    list.next := list;
    list.prev := list;
  }

  /** list_insert: put node in front of list, which is number p + 1. */
  method Insert(list: Link, node: Link, ghost head: Link, ghost order: seq<Link>, ghost p: nat)
    requires Ring(head, order) && p <= |order| && list == Nth(head, order, p + 1)
    requires node != head && node !in order
    modifies node`prev, node`next, head`prev, head`next, order`prev, order`next
    ensures Ring(head, order[..p] + [node] + order[p..])
  {
    ghost var q := Nth(head, order, p);
    assert q.next == list && list.prev == q;
    assert (q == head || q in order) && (list == head || list in order);
    node.next := list;
    node.prev := list.prev;
    list.prev.next := node;
    list.prev := node;
    ghost var o := order[..p] + [node] + order[p..];
    forall i | 0 <= i <= |o|
      ensures Nth(head, o, i).next == Nth(head, o, i + 1) && Nth(head, o, i + 1).prev == Nth(head, o, i)
    {
      if i < p {
        Apart(head, order, i, p);
        Apart(head, order, i + 1, p + 1);
        assert Nth(head, order, i).next == Nth(head, order, i + 1)
               && Nth(head, order, i + 1).prev == Nth(head, order, i);
      } else if i > p + 1 {
        Apart(head, order, i - 1, p);
        Apart(head, order, i, p + 1);
        assert Nth(head, order, i - 1).next == Nth(head, order, i)
               && Nth(head, order, i).prev == Nth(head, order, i - 1);
      }
    }
  }

  /** Different numbers are different links, but for the two numbers of the head. */
  lemma Apart(head: Link, order: seq<Link>, i: nat, j: nat)
    requires Different(head, order) && i <= |order| + 1 && j <= |order| + 1 && i != j
    ensures Nth(head, order, i) != Nth(head, order, j) || {i, j} == {0, |order| + 1}
  {}

  /** list_remove: take out number p + 1. */
  method Remove(list: Link, ghost head: Link, ghost order: seq<Link>, ghost p: nat)
    requires Ring(head, order) && p < |order| && list == order[p]
    modifies head`prev, head`next, order`prev, order`next
    ensures Ring(head, order[..p] + order[p + 1..])
  {
    ghost var q, r := Nth(head, order, p), Nth(head, order, p + 2);
    assert list == Nth(head, order, p + 1);
    assert q.next == list && list.prev == q && list.next == r && r.prev == list;
    assert (q == head || q in order) && (r == head || r in order);
    list.prev.next := list.next;
    list.next.prev := list.prev;
    ghost var o := order[..p] + order[p + 1..];
    forall i | 0 <= i <= |o|
      ensures Nth(head, o, i).next == Nth(head, o, i + 1) && Nth(head, o, i + 1).prev == Nth(head, o, i)
    {
      if i < p {
        Apart(head, order, i, p);
        Apart(head, order, i + 1, p + 2);
        assert Nth(head, order, i).next == Nth(head, order, i + 1)
               && Nth(head, order, i + 1).prev == Nth(head, order, i);
      } else if i > p {
        Apart(head, order, i + 1, p);
        Apart(head, order, i + 2, p + 2);
        assert Nth(head, order, i + 1).next == Nth(head, order, i + 2)
               && Nth(head, order, i + 2).prev == Nth(head, order, i + 1);
      }
    }
  }
}
