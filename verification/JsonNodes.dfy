/** The linked children of a cJSON object on the heap: the merge sort that rewires
  * them, and the detach that follows their links. */
module JsonNodes {
  import opened JsonText
  import JsonSort
  import opened Sequences

  /** A cJSON node as its siblings see it. */
  class Node {
    const key: string
    var next: Node?
    var prev: Node?

    constructor (key: string)
      ensures this.key == key && next == null && prev == null
    {
      this.key := key;
      next, prev := null, null;
    }
  }

  function Key(n: Node): string { n.key }

  /** Neighbours point at each other. */
  ghost predicate Linked(s: seq<Node>)
    reads s
  {
    forall i :: 0 <= i < |s| - 1 ==> s[i].next == s[i+1] && s[i+1].prev == s[i]
  }

  function Head(s: seq<Node>): Node? { if s == [] then null else s[0] }

  /** `list` is the NULL-terminated chain of the nodes `s`.  Nothing is said of the
    * `prev` of its first node. */
  ghost predicate Chain(list: Node?, s: seq<Node>)
    reads s
  {
    && list == Head(s)
    && Distinct(s)
    && Linked(s)
    && (s != [] ==> s[|s|-1].next == null)
  }

  lemma ChainTail(list: Node?, s: seq<Node>)
    requires Chain(list, s) && list != null
    ensures Chain(list.next, s[1..])
  {
    assert forall i :: 0 <= i < |s| - 1 ==> s[1..][i] == s[i+1];
  }

  lemma DistinctPermuted(a: seq<Node>, b: seq<Node>)
    requires Distinct(a) && multiset(a) == multiset(b)
    ensures Distinct(b)
  {
    forall i, j | 0 <= i < j < |b| ensures b[i] != b[j] {
      if b[i] == b[j] {
        OccursTwice(b, i, j);
        OccursOnce(a, b[i]);
      }
    }
  }

  lemma OccursTwice(s: seq<Node>, i: nat, j: nat)
    requires i < j < |s| && s[i] == s[j]
    ensures multiset(s)[s[i]] >= 2
  {
    assert s == s[..j] + [s[j]] + s[j+1..];
    assert s[i] in s[..j];
  }

  lemma {:induction false} OccursOnce(s: seq<Node>, x: Node)
    requires Distinct(s)
    ensures multiset(s)[x] <= 1
  {
    if s != [] {
      assert s == [s[0]] + s[1..];
      OccursOnce(s[1..], x);
      if x == s[0] { assert x !in s[1..]; }
    }
  }

  lemma DistinctParts(a: seq<Node>, b: seq<Node>)
    requires Distinct(a + b)
    ensures Distinct(a) && Distinct(b) && forall x :: x in a ==> x !in b
  {
    forall i, j | 0 <= i < j < |a| ensures a[i] != a[j] { assert (a + b)[i] != (a + b)[j]; }
    forall i, j | 0 <= i < j < |b| ensures b[i] != b[j] { assert (a + b)[|a|+i] != (a + b)[|a|+j]; }
    forall i, j | 0 <= i < |a| && 0 <= j < |b| ensures a[i] != b[j] { assert (a + b)[i] != (a + b)[|a|+j]; }
  }

  /** `ptr->next = x; x->prev = ptr;` joins two linked runs. */
  method Join(ptr: Node, x: Node, ghost done: seq<Node>, ghost rest: seq<Node>)
    requires done != [] && ptr == done[|done|-1] && rest != [] && x == rest[0]
    requires Distinct(done + rest) && Linked(done) && Linked(rest)
    modifies ptr`next, x`prev
    ensures Linked(done + rest)
    ensures done[0].prev == old(done[0].prev)
    ensures rest[|rest|-1].next == old(rest[|rest|-1].next)
    ensures x.next == old(x.next)
  {
    DistinctParts(done, rest);
    assert ptr in done && x in rest && ptr !in rest && x !in done;
    ptr.next := x;
    x.prev := ptr;
    ghost var all := done + rest;
    forall i | 0 <= i < |all| - 1 ensures all[i].next == all[i+1] && all[i+1].prev == all[i] {
      if i < |done| - 1 {
        assert all[i] == done[i] && all[i+1] == done[i+1] && done[i] != ptr;
      } else if i > |done| - 1 {
        ghost var n := i - |done|;
        assert all[i] == rest[n] && all[i+1] == rest[n+1] && rest[n+1] != x && rest[n] in rest;
      }
    }
  }

  /** The merge in progress: `done` is linked from `list` to `ptr`, and the two
    * remainders hang off `first` and `second`. */
  ghost predicate Merging(list: Node?, ptr: Node?, first: Node?, second: Node?,
                          done: seq<Node>, f: seq<Node>, s: seq<Node>)
    reads done, f, s
  {
    && list == Head(done)
    && ptr == (if done == [] then null else done[|done|-1])
    && Linked(done) && Chain(first, f) && Chain(second, s)
    && Distinct(done + (f + s))
  }

  /** Moves the head `x` of one remainder to the end of the merged part. */
  method TakeHead(list: Node?, ptr: Node?, x: Node, other: Node?,
                  ghost done: seq<Node>, ghost f: seq<Node>, ghost s: seq<Node>)
    returns (list': Node?, ptr': Node?)
    requires Merging(list, ptr, x, other, done, f, s)
    modifies (if ptr == null then {} else {ptr})`next, x`prev
    ensures Merging(list', ptr', x.next, other, done + [x], f[1..], s)
    ensures list' != null && ptr' == x
    ensures NodeSet((done + [x]) + (f[1..] + s)) == NodeSet(done + (f + s))
    ensures done == [] ==> x.prev == old(x.prev)
    ensures done != [] ==> list' == list && done[0].prev == old(done[0].prev)
  {
    DistinctParts(done, f + s);
    DistinctParts(f, s);
    ChainTail(x, f);
    assert f == [x] + f[1..];
    assert done + (f + s) == (done + [x]) + (f[1..] + s);
    assert x in f + s && x !in done && x !in s && x !in f[1..];
    assert ptr != null ==> ptr in done && ptr !in f + s && ptr !in f[1..] && ptr !in s;
    if list == null {
      list', ptr' := x, x;
    } else {
      DistinctPrefix(done, x, f[1..] + s);
      Join(ptr, x, done, [x]);
      list', ptr' := list, x;
    }
  }

  lemma DistinctPrefix(a: seq<Node>, x: Node, b: seq<Node>)
    requires Distinct((a + [x]) + b)
    ensures Distinct(a + [x])
  {
    DistinctParts(a + [x], b);
  }

  ghost function NodeSet(s: seq<Node>): set<Node> { set x | x in s }

  lemma MergeStep(done: seq<Node>, f: seq<Node>, s: seq<Node>)
    requires f != [] && s != []
    ensures StrCaseCmp(f[0].key, s[0].key) < 0 ==>
      done + JsonSort.Merge(f, s, Key) == (done + [f[0]]) + JsonSort.Merge(f[1..], s, Key)
    ensures StrCaseCmp(f[0].key, s[0].key) >= 0 ==>
      done + JsonSort.Merge(f, s, Key) == (done + [s[0]]) + JsonSort.Merge(f, s[1..], Key)
  {
    hide StrCaseCmp;
  }

  /** "Merge the sub-lists" while both have nodes. */
  method MergeHeads(first0: Node?, second0: Node?, ghost f0: seq<Node>, ghost s0: seq<Node>)
    returns (list: Node?, ptr: Node?, first: Node?, second: Node?,
             ghost done: seq<Node>, ghost f: seq<Node>, ghost s: seq<Node>)
    requires Chain(first0, f0) && Chain(second0, s0) && Distinct(f0 + s0)
    modifies NodeSet(f0 + s0)`next, NodeSet(f0 + s0)`prev
    ensures Merging(list, ptr, first, second, done, f, s) && (first == null || second == null)
    ensures JsonSort.Merge(f0, s0, Key) == done + JsonSort.Merge(f, s, Key)
    ensures NodeSet(done + (f + s)) == NodeSet(f0 + s0)
    ensures done != [] ==> f != [] || s != []
    ensures list == null ==> forall x: Node :: x in f0 + s0 ==> x.prev == old(x.prev)
    ensures list != null ==> list in NodeSet(f0 + s0) && list.prev == old(list.prev)
  {
    hide StrCaseCmp, JsonSort.Merge, Merging, Linked, Distinct;
    first, second := first0, second0;
    list, ptr := null, null;
    ghost var all := JsonSort.Merge(f0, s0, Key);
    done, f, s := [], f0, s0;
    StartMerging(first, second, f0, s0);
    while first != null && second != null
      invariant Merging(list, ptr, first, second, done, f, s)
      invariant first == Head(f) && second == Head(s) && list == Head(done)
      invariant all == done + JsonSort.Merge(f, s, Key)
      invariant NodeSet(done + (f + s)) == NodeSet(f0 + s0)
      invariant done != [] ==> f != [] || s != []
      invariant list == null ==> forall x: Node :: x in f0 + s0 ==> x.prev == old(x.prev)
      invariant list != null ==> list in NodeSet(f0 + s0) && list.prev == old(list.prev)
      decreases |f| + |s|
    {
      MergeStep(done, f, s);
      MergingNodes(list, ptr, first, second, done, f, s);
      if StrCaseCmp(first.key, second.key) < 0 {
        ghost var x: Node := first;
        list, ptr := TakeHead(list, ptr, first, second, done, f, s);
        first := first.next;
        done, f := done + [x], f[1..];
      } else {
        ghost var x: Node := second;
        SwapMerging(list, ptr, first, second, done, f, s);
        list, ptr := TakeHead(list, ptr, second, first, done, s, f);
        second := second.next;
        done, s := done + [x], s[1..];
        SwapMerging(list, ptr, second, first, done, s, f);
      }
      MergingNodes(list, ptr, first, second, done, f, s);
    }
  }

  /** "Append any remaining" nodes of one chain to the merged part. */
  method AppendRest(list: Node, ptr: Node, x: Node, ghost done: seq<Node>, ghost rest: seq<Node>)
    requires Linked(done) && done != [] && list == done[0] && ptr == done[|done|-1]
    requires Chain(x, rest) && Distinct(done + rest)
    modifies ptr`next, x`prev
    ensures Chain(list, done + rest) && list.prev == old(list.prev)
  {
    DistinctParts(done, rest);
    Join(ptr, x, done, rest);
  }

  /** The second half of `cJSONUtils_SortList`: merge two sorted chains by moving
    * the smaller head behind `ptr`, then append what is left of either. */
  method MergeLists(first0: Node?, second0: Node?, ghost f0: seq<Node>, ghost s0: seq<Node>) returns (list: Node?)
    requires Chain(first0, f0) && Chain(second0, s0) && Distinct(f0 + s0)
    modifies NodeSet(f0 + s0)`next, NodeSet(f0 + s0)`prev
    ensures Chain(list, JsonSort.Merge(f0, s0, Key))
    ensures list != null ==> list.prev == old(list.prev)
  {
    hide JsonSort.Merge, Merging, Linked, Distinct;
    var ptr, first, second;
    ghost var done, f, s;
    list, ptr, first, second, done, f, s := MergeHeads(first0, second0, f0, s0);
    MergingNodes(list, ptr, first, second, done, f, s);
    MergingEnds(list, ptr, first, second, done, f, s);
    assert [] + f == f && [] + s == s;
    assert first != null ==> first in NodeSet(f0 + s0);
    assert second != null ==> second in NodeSet(f0 + s0);
    if first != null {
      if list == null {
        return first;
      }
      AppendRest(list, ptr, first, done, f);
    }
    if second != null {
      if list == null {
        return second;
      }
      AppendRest(list, ptr, second, done, s);
    }
  }

  lemma MergingNodes(list: Node?, ptr: Node?, first: Node?, second: Node?, done: seq<Node>, f: seq<Node>, s: seq<Node>)
    requires Merging(list, ptr, first, second, done, f, s)
    ensures first == Head(f) && second == Head(s) && list == Head(done)
    ensures ptr == null <==> list == null
    ensures forall x: Node :: (x == list || x == ptr || x == first || x == second) ==> x in NodeSet(done + (f + s))
  {
    assert forall x :: x in done || x in f || x in s ==> x in done + (f + s);
  }

  lemma MergingEnds(list: Node?, ptr: Node?, first: Node?, second: Node?, done: seq<Node>, f: seq<Node>, s: seq<Node>)
    requires Merging(list, ptr, first, second, done, f, s) && (first == null || second == null)
    ensures Linked(done) && Chain(first, f) && Chain(second, s)
    ensures list != null ==> ptr != null && done != [] && ptr == done[|done|-1] && list == done[0]
    ensures list == null ==> done == []
    ensures first == null ==> f == [] && Distinct(done + s)
    ensures second == null ==> s == [] && Distinct(done + f)
    ensures f == [] ==> JsonSort.Merge(f, s, Key) == s
    ensures s == [] ==> JsonSort.Merge(f, s, Key) == f
  {
    assert first == null ==> done + (f + s) == done + s;
    assert second == null ==> done + (f + s) == done + f;
  }

  lemma StartMerging(first: Node?, second: Node?, f: seq<Node>, s: seq<Node>)
    requires Chain(first, f) && Chain(second, s) && Distinct(f + s)
    ensures Merging(null, null, first, second, [], f, s)
    ensures [] + JsonSort.Merge(f, s, Key) == JsonSort.Merge(f, s, Key) && [] + (f + s) == f + s
  {
    assert [] + (f + s) == f + s;
  }

  lemma SwapMerging(list: Node?, ptr: Node?, first: Node?, second: Node?, done: seq<Node>, f: seq<Node>, s: seq<Node>)
    requires Merging(list, ptr, first, second, done, f, s)
    ensures Merging(list, ptr, second, first, done, s, f)
    ensures NodeSet(done + (f + s)) == NodeSet(done + (s + f))
  {
    DistinctParts(done, f + s);
    DistinctParts(f, s);
    var t := done + (s + f);
    forall i, j | 0 <= i < j < |t| ensures t[i] != t[j] {
      var p := if i < |done| then i else if i < |done| + |s| then i + |f| else i - |s|;
      var q := if j < |done| then j else if j < |done| + |s| then j + |f| else j - |s|;
      assert t[i] == (done + (f + s))[p] && t[j] == (done + (f + s))[q];
      assert p < q || q < p;
    }
  }

  // ----- the whole sort -----

  function NodeAt(s: seq<Node>, i: nat): Node? { if i < |s| then s[i] else null }

  lemma ChainNext(list: Node?, s: seq<Node>, i: nat)
    requires Chain(list, s) && i < |s|
    ensures s[i].next == NodeAt(s, i + 1)
    ensures i > 0 ==> s[i].prev == s[i-1]
  {
    if i > 0 { assert s[i-1].next == s[i-1+1] && s[i-1+1].prev == s[i-1]; }
  }

  /** Cutting a chain in two needs one write only. */
  lemma Halves(list: Node?, s: seq<Node>, mid: nat)
    requires Chain(list, s) && 0 < mid < |s|
    ensures var f, g := s[..mid], s[mid..];
      && list == Head(f) && Distinct(f) && Linked(f) && f[|f|-1] == s[mid].prev
      && Chain(s[mid], g) && s[mid].prev !in g
  {
    DistinctParts(s[..mid], s[mid..]) by { assert s[..mid] + s[mid..] == s; }
    ChainNext(list, s, mid);
    assert s[mid-1] in s[..mid];
  }

  /** "Test for list sorted": walk while neighbours are strictly ascending. */
  method AlreadySorted(list: Node, ghost s: seq<Node>) returns (sorted: bool)
    requires Chain(list, s)
    ensures sorted <==> JsonSort.StrictlySorted(s, Key)
  {
    hide StrCaseCmp;
    var ptr: Node := list;
    ghost var i := 0;
    ChainNext(list, s, 0);
    while ptr.next != null && StrCaseCmp(ptr.key, ptr.next.key) < 0
      invariant 0 <= i < |s| && ptr == s[i] && ptr.next == NodeAt(s, i + 1)
      invariant forall k :: 0 <= k < i ==> StrCaseCmp(s[k].key, s[k+1].key) < 0
      decreases |s| - i
    {
      ptr := ptr.next;
      i := i + 1;
      ChainNext(list, s, i);
    }
    sorted := ptr.next == null;
    assert !sorted ==> !(StrCaseCmp(Key(s[i]), Key(s[i+1])) < 0);
  }

  /** "Walk two pointers to find the middle." */
  method Middle(list: Node, ghost s: seq<Node>) returns (second: Node)
    requires Chain(list, s) && |s| >= 2
    ensures second == s[(|s| + 1) / 2]
  {
    var slow: Node?, ptr: Node? := list, list;
    ghost var k := 0;
    while ptr != null
      invariant slow == NodeAt(s, k) && ptr == NodeAt(s, 2 * k) && (k > 0 ==> 2 * (k - 1) < |s|)
      decreases |s| - 2 * k
    {
      ChainNext(list, s, k);
      ChainNext(list, s, 2 * k);
      slow := slow.next;
      ptr := ptr.next;
      if ptr != null {
        ChainNext(list, s, 2 * k + 1);
        ptr := ptr.next;
      }
      k := k + 1;
    }
    second := slow;
  }

  lemma SortedHalves(s: seq<Node>, mid: nat)
    requires Distinct(s) && mid <= |s|
    ensures var f, g := JsonSort.SortList(s[..mid], Key), JsonSort.SortList(s[mid..], Key);
      && Distinct(f + g) && NodeSet(f + g) == NodeSet(s)
      && (forall x: Node :: x in f ==> x in NodeSet(s[..mid])) && (forall x: Node :: x in g ==> x in NodeSet(s[mid..]))
      && NodeSet(f) == NodeSet(s[..mid]) && NodeSet(g) == NodeSet(s[mid..])
      && NodeSet(s[..mid]) !! NodeSet(s[mid..])
  {
    hide JsonSort.SortList;
    var f0, g0 := s[..mid], s[mid..];
    var f, g := JsonSort.SortList(f0, Key), JsonSort.SortList(g0, Key);
    assert s == f0 + g0;
    DistinctParts(f0, g0);
    JsonSort.SortPermutes(f0, Key);
    JsonSort.SortPermutes(g0, Key);
    JsonSort.SameElements(f0, f);
    JsonSort.SameElements(g0, g);
    assert multiset(f + g) == multiset(s);
    DistinctPermuted(s, f + g);
    JsonSort.SameElements(s, f + g);
    assert NodeSet(f) == NodeSet(f0) && NodeSet(g) == NodeSet(g0) && NodeSet(f + g) == NodeSet(s);
  }

  lemma MergeHead(f: seq<Node>, s: seq<Node>)
    ensures Head(JsonSort.Merge(f, s, Key)) == Head(f) || Head(JsonSort.Merge(f, s, Key)) == Head(s)
  {
    hide StrCaseCmp;
  }

  lemma PrevInside(list: Node?, s: seq<Node>)
    requires Chain(list, s)
    ensures forall x :: x in NodeSet(s) && x != list ==> x.prev != null && x.prev in NodeSet(s) && x.prev != x
  {
    forall x | x in NodeSet(s) && x != list ensures x.prev != null && x.prev in NodeSet(s) && x.prev != x {
      var i :| 0 <= i < |s| && s[i] == x;
      ChainNext(list, s, i);
      assert s[i-1] in s;
    }
  }

  /** `cJSONUtils_SortList`: terminates, rewires the same nodes into the order the
    * functional sort gives them, mirrors every `next` by a `prev`, and leaves the
    * `prev` of the new first node as it was. */
  method SortList(list: Node?, ghost s: seq<Node>) returns (r: Node?)
    requires Chain(list, s)
    modifies NodeSet(s)`next, NodeSet(s)`prev
    ensures Chain(r, JsonSort.SortList(s, Key))
    ensures r != null ==> r in NodeSet(s) && r.prev == old(r.prev)
    ensures list != null && old(list.prev) == null ==> (r.prev == null <==> r == list)
    decreases |s|, 1
  {
    PrevInside(list, s);
    hide JsonSort.StrictlySorted, JsonSort.Merge, Distinct, Linked;
    if list != null { ChainNext(list, s, 0); }
    if list == null || list.next == null {
      return list;
    }
    var sorted := AlreadySorted(list, s);
    if sorted {
      return list;
    }
    var second0 := Middle(list, s);
    ghost var mid := (|s| + 1) / 2;
    ghost var f0, s0 := s[..mid], s[mid..];
    ghost var f1, s1 := JsonSort.SortList(f0, Key), JsonSort.SortList(s0, Key);
    ChainNext(list, s, mid);
    var first, second := SplitAndSort(list, second0, s, mid);
    r := MergeLists(first, second, f1, s1);
    MergeHead(f1, s1);
  }

  /** "Split the lists". */
  method Cut(list: Node, second0: Node, ghost s: seq<Node>, ghost mid: nat)
    requires Chain(list, s) && 0 < mid < |s| && second0 == s[mid]
    modifies {s[mid-1]}`next
    ensures Chain(list, s[..mid]) && Chain(second0, s[mid..])
  {
    Halves(list, s, mid);
    ChainNext(list, s, mid);
    assert forall i :: 0 <= i < mid - 1 ==> s[..mid][i] != s[mid-1];
    second0.prev.next := null;
    assert s[..mid][mid-1] == s[mid-1] && Linked(s[..mid]);
  }

  /** ... and sort both halves. */
  method SplitAndSort(list: Node, second0: Node, ghost s: seq<Node>, ghost mid: nat)
    returns (first: Node?, second: Node?)
    requires Chain(list, s) && 0 < mid < |s| && second0 == s[mid]
    modifies NodeSet(s)`next, NodeSet(s)`prev
    ensures var f, g := JsonSort.SortList(s[..mid], Key), JsonSort.SortList(s[mid..], Key);
      && Chain(first, f) && Chain(second, g) && Distinct(f + g) && NodeSet(f + g) == NodeSet(s)
    ensures first != null ==> first in NodeSet(s) && first.prev == old(first.prev)
    ensures second != null ==> second in NodeSet(s) && second.prev == old(second.prev)
    decreases |s|, 0
  {
    hide JsonSort.SortList, Linked, Distinct;
    ghost var f0, s0 := s[..mid], s[mid..];
    assert NodeSet(f0) <= NodeSet(s) && NodeSet(s0) <= NodeSet(s);
    SortedHalves(s, mid);
    Cut(list, second0, s, mid);
    first := SortList(list, f0);
    second := SortBeside(second0, s0, first, JsonSort.SortList(f0, Key));
  }

  /** Sorting one chain leaves another one alone. */
  method SortBeside(list: Node?, ghost s: seq<Node>, ghost other: Node?, ghost f: seq<Node>) returns (r: Node?)
    requires Chain(list, s) && Chain(other, f) && NodeSet(f) !! NodeSet(s)
    modifies NodeSet(s)`next, NodeSet(s)`prev
    ensures Chain(r, JsonSort.SortList(s, Key)) && Chain(other, f)
    ensures r != null ==> r in NodeSet(s) && r.prev == old(r.prev)
    decreases |s|, 2
  {
    hide JsonSort.SortList, Distinct;
    assert forall i :: 0 <= i < |f| ==> f[i] in NodeSet(f) && f[i] !in NodeSet(s);
    r := SortList(list, s);
    assert forall i :: 0 <= i < |f| ==> f[i].next == old(f[i].next) && f[i].prev == old(f[i].prev);
  }

  // ----- detaching from a sorted object -----

  /** The object or array that owns a chain of children. */
  class Parent {
    var child: Node?

    constructor (child: Node?)
      ensures this.child == child
    {
      this.child := child;
    }
  }

  ghost predicate Ring(ring: seq<Node>)
    reads ring
  {
    ring != [] && forall i :: 0 <= i < |ring| ==> ring[i].next == ring[if i + 1 == |ring| then 0 else i + 1]
  }

  /** A walk along a ring never meets the end of a chain. */
  lemma {:induction false} NoEnd(c: Node?, t: seq<Node>, ring: seq<Node>, k: nat, p: nat)
    requires Chain(c, t) && Ring(ring) && k < |t| && p < |ring| && t[k] == ring[p]
    ensures false
    decreases |t| - k
  {
    ChainNext(c, t, k);
    var q := if p + 1 == |ring| then 0 else p + 1;
    assert ring[p].next == ring[q];
    NoEnd(c, t, ring, k + 1, q);
  }

  lemma RingIsNoChain(c: Node?, t: seq<Node>, ring: seq<Node>)
    requires Ring(ring) && c == ring[0]
    ensures !Chain(c, t)
  {
    if Chain(c, t) { NoEnd(c, t, ring, 0, 0); }
  }

  /** With the links around node `i` closed, the other nodes are a chain. */
  lemma Relinked(list: Node?, s: seq<Node>, i: nat)
    requires Distinct(s) && i < |s| && list == Head(Without(s, i))
    requires forall k :: 0 <= k < |s| - 1 && k != i && k != i - 1 ==> s[k].next == s[k+1] && s[k+1].prev == s[k]
    requires i < |s| - 1 ==> s[|s|-1].next == null
    requires 0 < i < |s| - 1 ==> s[i-1].next == s[i+1] && s[i+1].prev == s[i-1]
    requires 0 < i == |s| - 1 ==> s[i-1].next == null
    ensures Chain(list, Without(s, i))
  {
    WithoutDistinct(s, i);
    hide Distinct;
    var r := Without(s, i);
    assert forall k :: 0 <= k < |r| - 1 && k + 1 != i ==> r[k].next == r[k+1] && r[k+1].prev == r[k];
  }

  /** A first child whose last sibling points back at it starts no chain. */
  lemma TiedIntoRing(s: seq<Node>, j: nat)
    requires 1 <= j < |s| && s[j].next == s[1]
    requires forall k :: 1 <= k < j ==> s[k].next == s[k+1]
    ensures forall t: seq<Node> :: !Chain(s[1], t)
  {
    var ring := s[1..j+1];
    assert forall k :: 0 <= k < |ring| ==> ring[k] == s[k+1];
    forall t: seq<Node> ensures !Chain(s[1], t) {
      RingIsNoChain(s[1], t, ring);
    }
  }

  /** `cJSON_DetachItemViaPointer`.  It trusts the `prev` of the first child: when
    * that is NULL, or another child is detached, the rest stays a chain in order;
    * when it points at a sibling, detaching the first child ties the rest into a
    * ring, and no chain is left. */
  method DetachItemViaPointer(parent: Parent, item: Node, ghost s: seq<Node>, ghost i: nat)
    requires Chain(parent.child, s) && i < |s| && item == s[i]
    requires s[0].prev == null || s[0].prev in s[1..]
    modifies parent`child, NodeSet(s)`next, NodeSet(s)`prev
    ensures i > 0 || old(s[0].prev) == null ==>
      Chain(parent.child, Without(s, i)) && item.prev == null && item.next == null
      && (old(s[0].prev) == null && parent.child != null ==> parent.child.prev == null)
    ensures i == 0 && old(s[0].prev) != null ==> forall t: seq<Node> :: !Chain(parent.child, t)
  {
    ChainNext(parent.child, s, i);
    ghost var stale := s[0].prev;
    if item.prev != null {
      item.prev.next := item.next;
    }
    if item.next != null {
      item.next.prev := item.prev;
    }
    if item == parent.child {
      parent.child := item.next;
    }
    item.prev := null;
    item.next := null;
    if i > 0 || stale == null {
      Relinked(parent.child, s, i);
    } else {
      var j :| 1 <= j < |s| && s[j] == stale;
      TiedIntoRing(s, j);
    }
  }

  lemma SortedNodes(s: seq<Node>)
    ensures NodeSet(JsonSort.SortList(s, Key)) == NodeSet(s)
  {
    JsonSort.SortPermutes(s, Key);
    var r := JsonSort.SortList(s, Key);
    JsonSort.SameElements(s, r);
    assert NodeSet(r) == NodeSet(s);
  }

  /** Where the `prev` of the first node points after sorting. */
  method SortFirst(list: Node, ghost s: seq<Node>) returns (r: Node)
    requires Chain(list, s) && list.prev == null
    modifies NodeSet(s)`next, NodeSet(s)`prev
    ensures Chain(r, JsonSort.SortList(s, Key))
    ensures r.prev == null <==> r == list
    ensures r.prev == null || r.prev in JsonSort.SortList(s, Key)[1..]
  {
    SortedNodes(s);
    PrevInside(list, s);
    hide JsonSort.SortList, Linked, Distinct;
    r := SortList(list, s);
    ghost var out := JsonSort.SortList(s, Key);
    assert out == [out[0]] + out[1..];
    assert r.prev != null ==> r.prev in NodeSet(out) && r.prev != r;
  }

  /** Sorting an object and then detaching its first member: the members survive
    * exactly when the sort left the first member in place. */
  method SortThenDetachFirst(parent: Parent, ghost s: seq<Node>) returns (item: Node)
    requires s != [] && Chain(parent.child, s) && s[0].prev == null
    modifies parent`child, NodeSet(s)`next, NodeSet(s)`prev
    ensures item == JsonSort.SortList(s, Key)[0]
    ensures item == s[0] ==> Chain(parent.child, JsonSort.SortList(s, Key)[1..])
    ensures item != s[0] ==> forall t: seq<Node> :: !Chain(parent.child, t)
  {
    ghost var r := JsonSort.SortList(s, Key);
    SortedNodes(s);
    hide JsonSort.SortList, Linked, Distinct;
    parent.child := SortFirst(parent.child, s);
    item := parent.child;
    assert r == [r[0]] + r[1..];
    DetachItemViaPointer(parent, item, r, 0);
    assert Without(r, 0) == r[1..];
  }
}
