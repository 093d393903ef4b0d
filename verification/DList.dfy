/** The intrusive circular doubly-linked list of `aos/list.h`.  The struct a link is
  * embedded in is the link's `entry`; the head of a list has none. */
module DList {
  import opened Wrappers
  import opened Sequences

  class Node<T> {
    var prev: Node?<T>
    var next: Node?<T>
    var entry: Option<T>

    /** A link outside any list. */
    constructor (entry: Option<T>)
      ensures this.entry == entry
    {
      this.entry := entry;
      prev, next := null, null;
    }
  }

  ghost function NodeSet<T>(s: seq<Node<T>>): set<Node<T>> {
    set x | x in s
  }

  /** The nodes `r` form a ring: every `next` is mirrored by a `prev`, and the last
    * node leads back to the first. */
  ghost predicate Ring<T>(r: seq<Node<T>>)
    reads r
  {
    && r != [] && Distinct(r)
    && (forall i :: 0 <= i < |r| - 1 ==> r[i].next == r[i+1])
    && (forall i :: 0 < i < |r| ==> r[i].prev == r[i-1])
    && r[|r|-1].next == r[0] && r[0].prev == r[|r|-1]
  }

  lemma NextOf<T>(r: seq<Node<T>>, i: nat)
    requires Ring(r) && i < |r|
    ensures r[i].next == r[if i + 1 < |r| then i + 1 else 0]
    ensures r[i].prev == r[if i > 0 then i - 1 else |r| - 1]
  {
  }

  function After(n: nat, i: nat): nat { if i + 1 < n then i + 1 else 0 }

  function Before(n: nat, i: nat): int { if i > 0 then i - 1 else n - 1 }

  /** Every `next` leads on, all but that of node `x`. */
  ghost predicate LinkedOn<T>(r: seq<Node<T>>, x: int)
    reads r
  {
    forall k :: 0 <= k < |r| && k != x ==> r[k].next == r[After(|r|, k)]
  }

  /** Every `prev` leads back, all but that of node `x`. */
  ghost predicate LinkedBack<T>(r: seq<Node<T>>, x: int)
    reads r
  {
    forall k :: 0 <= k < |r| && k != x ==> r[k].prev == r[Before(|r|, k)]
  }

  lemma RingOf<T>(r: seq<Node<T>>)
    requires r != [] && Distinct(r) && LinkedOn(r, -1) && LinkedBack(r, -1)
    ensures Ring(r)
  {
    hide Distinct;
  }

  lemma InsertedOn<T>(r: seq<Node<T>>, i: nat, node: Node<T>)
    requires 0 < i <= |r| && LinkedOn(r, i - 1)
    requires r[i-1].next == node && node.next == r[After(|r|, i - 1)]
    ensures LinkedOn(Inserted(r, i, node), -1)
  {
    var t := Inserted(r, i, node);
    forall k | 0 <= k < |t| ensures t[k].next == t[After(|t|, k)] {
      assert t[k] == if k < i then r[k] else if k == i then node else r[k-1];
    }
  }

  lemma InsertedBack<T>(r: seq<Node<T>>, i: nat, node: Node<T>)
    requires 0 < i <= |r| && LinkedBack(r, After(|r|, i - 1))
    requires node.prev == r[i-1] && r[After(|r|, i - 1)].prev == node
    ensures LinkedBack(Inserted(r, i, node), -1)
  {
    var t := Inserted(r, i, node);
    forall k | 0 <= k < |t| ensures t[k].prev == t[Before(|t|, k)] {
      assert t[k] == if k < i then r[k] else if k == i then node else r[k-1];
    }
  }

  /** A ring with `node` linked in at place `i`. */
  lemma RingInserted<T>(r: seq<Node<T>>, i: nat, node: Node<T>)
    requires Distinct(r) && node !in r && 0 < i <= |r|
    requires LinkedOn(r, i - 1) && LinkedBack(r, After(|r|, i - 1))
    requires r[i-1].next == node && node.prev == r[i-1]
    requires node.next == r[After(|r|, i - 1)] && r[After(|r|, i - 1)].prev == node
    ensures Ring(Inserted(r, i, node))
  {
    hide Inserted, Distinct, LinkedOn, LinkedBack, Ring;
    InsertedDistinct(r, i, node);
    InsertedOn(r, i, node);
    InsertedBack(r, i, node);
    RingOf(Inserted(r, i, node));
  }

  lemma WithoutOn<T>(r: seq<Node<T>>, i: nat)
    requires 0 < i < |r| && forall k :: 0 <= k < |r| && k != i - 1 && k != i ==> r[k].next == r[After(|r|, k)]
    requires r[i-1].next == r[After(|r|, i)]
    ensures LinkedOn(Without(r, i), -1)
  {
    var t := Without(r, i);
    forall k | 0 <= k < |t| ensures t[k].next == t[After(|t|, k)] {
      assert t[k] == r[if k < i then k else k + 1];
    }
  }

  lemma WithoutBack<T>(r: seq<Node<T>>, i: nat)
    requires 0 < i < |r| && forall k :: 0 <= k < |r| && k != After(|r|, i) && k != i ==> r[k].prev == r[Before(|r|, k)]
    requires r[After(|r|, i)].prev == r[i-1]
    ensures LinkedBack(Without(r, i), -1)
  {
    var t := Without(r, i);
    forall k | 0 <= k < |t| ensures t[k].prev == t[Before(|t|, k)] {
      assert t[k] == r[if k < i then k else k + 1];
    }
  }

  /** A ring with node `i` skipped. */
  lemma RingWithout<T>(r: seq<Node<T>>, i: nat)
    requires Distinct(r) && 0 < i < |r|
    requires forall k :: 0 <= k < |r| && k != i - 1 && k != i ==> r[k].next == r[After(|r|, k)]
    requires forall k :: 0 <= k < |r| && k != After(|r|, i) && k != i ==> r[k].prev == r[Before(|r|, k)]
    requires r[i-1].next == r[After(|r|, i)] && r[After(|r|, i)].prev == r[i-1]
    ensures Ring(Without(r, i))
  {
    hide Without, Distinct, LinkedOn, LinkedBack, Ring;
    WithoutDistinct(r, i);
    WithoutOn(r, i);
    WithoutBack(r, i);
    RingOf(Without(r, i));
  }

  lemma Once<T>(r: seq<Node<T>>, i: nat)
    requires Distinct(r) && i < |r|
    ensures forall k :: 0 <= k < |r| && r[k] == r[i] ==> k == i
  {
  }

  /** `__dlist_add`: puts `node` between two neighbours of a ring. */
  method AddBetween<T>(node: Node<T>, prev: Node<T>, next: Node<T>, ghost r: seq<Node<T>>, ghost i: nat)
    requires Ring(r) && 0 < i <= |r| && node !in r
    requires prev == r[i-1] && next == r[if i < |r| then i else 0]
    modifies node`next, node`prev, prev`next, next`prev
    ensures Ring(Inserted(r, i, node))
  {
    Once(r, i - 1);
    Once(r, After(|r|, i - 1));
    hide Distinct, Inserted;
    node.next := next;
    node.prev := prev;
    prev.next := node;
    next.prev := node;
    RingInserted(r, i, node);
  }

  /** `dlist_add`: right behind the head. */
  method Add<T>(node: Node<T>, queue: Node<T>, ghost r: seq<Node<T>>)
    requires Ring(r) && queue == r[0] && node !in r
    modifies node`next, node`prev, NodeSet(r)`next, NodeSet(r)`prev
    ensures Ring(Inserted(r, 1, node))
  {
    NextOf(r, 0);
    AddBetween(node, queue, queue.next, r, 1);
  }

  /** `dlist_add_tail`: right in front of `queue`; in front of the head that is the
    * end of the list. */
  method AddTail<T>(node: Node<T>, queue: Node<T>, ghost r: seq<Node<T>>, ghost i: nat)
    requires Ring(r) && i < |r| && queue == r[i] && node !in r
    modifies node`next, node`prev, NodeSet(r)`next, NodeSet(r)`prev
    ensures Ring(Inserted(r, if i == 0 then |r| else i, node))
  {
    NextOf(r, i);
    AddBetween(node, queue.prev, queue, r, if i == 0 then |r| else i);
  }

  /** `dlist_del`: the neighbours close up; the node keeps its own links. */
  method Del<T>(node: Node<T>, ghost r: seq<Node<T>>, ghost i: nat)
    requires Ring(r) && 0 < i < |r| && node == r[i]
    modifies NodeSet(r)`next, NodeSet(r)`prev
    ensures Ring(Without(r, i))
  {
    NextOf(r, i);
    Once(r, i - 1);
    Once(r, After(|r|, i));
    hide Distinct, Without;
    var prev: Node<T>, next: Node<T> := node.prev, node.next;
    prev.next := next;
    next.prev := prev;
    RingWithout(r, i);
  }

  /** `dlist_init`. */
  method Init<T>(node: Node<T>)
    modifies node`next, node`prev
    ensures Ring([node])
  {
    node.next, node.prev := node, node;
  }

  /** `dlist_empty`. */
  method Empty<T>(head: Node<T>, ghost r: seq<Node<T>>) returns (b: bool)
    requires Ring(r) && head == r[0]
    ensures b <==> |r| == 1
  {
    NextOf(r, 0);
    b := head.next == head;
    assert |r| > 1 ==> r[0] != r[1];
  }
}
