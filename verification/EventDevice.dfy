/** The event device: a queue of messages with urgent ones in front, and a cache of
  * used nodes, both on intrusive lists. */
module EventDevice {
  import opened DList
  import opened Wrappers
  import opened Sequences

  type byte = bv8

  /** A `dev_event_t`: how much room its allocation has, the length of the message
    * in it, and the bytes of that room. */
  datatype Event = Event(len: nat, room: seq<byte>)

  const CACHE_MAX := 4

  function Take(m: seq<byte>, len: nat): seq<byte> {
    m[..if len > |m| then |m| else len]
  }

  // ----- the order of messages over whole runs -----

  datatype Message = Message(data: seq<byte>, urgent: bool, stamp: nat)

  datatype Op = Write(data: seq<byte>, urgent: bool) | Read

  datatype Trace = Trace(pending: seq<Message>, delivered: seq<Message>)

  function With<S>(list: seq<S>, x: S, front: bool): seq<S> {
    if front then [x] + list else list + [x]
  }

  function Step(t: Trace, op: Op, now: nat): Trace {
    match op
    case Write(d, urgent) =>
      var m := Message(d, urgent, now);
      t.(pending := With(t.pending, m, urgent))
    case Read =>
      if t.pending == [] then t else Trace(t.pending[1..], t.delivered + [t.pending[0]])
  }

  function Run(ops: seq<Op>): Trace {
    if ops == [] then Trace([], []) else Step(Run(ops[..|ops|-1]), ops[|ops|-1], |ops| - 1)
  }

  /** The messages written so far. */
  function Written(ops: seq<Op>): seq<Message> {
    if ops == [] then []
    else
      var last := ops[|ops|-1];
      Written(ops[..|ops|-1]) + if last.Write? then [Message(last.data, last.urgent, |ops| - 1)] else []
  }

  /** Every message written is delivered or pending, and only once. */
  lemma {:induction false} ExactlyOnce(ops: seq<Op>)
    ensures multiset(Written(ops)) == multiset(Run(ops).delivered) + multiset(Run(ops).pending)
    decreases |ops|
  {
    if ops != [] {
      var before, op := ops[..|ops|-1], ops[|ops|-1];
      ExactlyOnce(before);
      hide Written, Run, Step;
      StepConserves(Run(before), op, |before|);
      LastStep(ops);
    }
  }

  lemma LastStep(ops: seq<Op>)
    requires ops != []
    ensures var before, op := ops[..|ops|-1], ops[|ops|-1];
      && Run(ops) == Step(Run(before), op, |before|)
      && Written(ops) == Written(before) + if op.Write? then [Message(op.data, op.urgent, |before|)] else []
  {
  }

  lemma StepConserves(t: Trace, op: Op, now: nat)
    ensures var t' := Step(t, op, now);
      multiset(t'.delivered) + multiset(t'.pending) == multiset(t.delivered) + multiset(t.pending) +
        if op.Write? then multiset{Message(op.data, op.urgent, now)} else multiset{}
  {
    if op.Read? && t.pending != [] { assert t.pending == [t.pending[0]] + t.pending[1..]; }
  }

  /** `a` is to be read before `b`: urgent ones first, the latest urgent one in
    * front, normal ones in the order written. */
  predicate ReadBefore(a: Message, b: Message) {
    if a.urgent then (b.urgent ==> a.stamp > b.stamp) else !b.urgent && a.stamp < b.stamp
  }

  predicate InOrder(q: seq<Message>) {
    forall i, j :: 0 <= i < j < |q| ==> ReadBefore(q[i], q[j])
  }

  lemma {:induction false} PendingInOrder(ops: seq<Op>)
    ensures InOrder(Run(ops).pending)
    ensures forall i :: 0 <= i < |Run(ops).pending| ==> Run(ops).pending[i].stamp < |ops|
    decreases |ops|
  {
    if ops != [] {
      PendingInOrder(ops[..|ops|-1]);
    }
  }

  // ----- the device -----

  /** The nodes of `list` carry exactly the messages `ms`, with no room to spare. */
  ghost predicate Holds(list: seq<Node<Event>>, ms: seq<Message>)
    reads list`entry
  {
    |ms| == |list| && forall i :: 0 <= i < |list| ==> list[i].entry == Some(Event(|ms[i].data|, ms[i].data))
  }

  lemma NodesWith(head: Node<Event>, list: seq<Node<Event>>, evt: Node<Event>, front: bool)
    ensures NodeSet([head] + With(list, evt, front)) == NodeSet([head] + list) + {evt}
    ensures |With(list, evt, front)| == |list| + 1
  {
  }

  lemma HoldsWith(list: seq<Node<Event>>, ms: seq<Message>, evt: Node<Event>, m: Message)
    requires Holds(list, ms) && evt.entry == Some(Event(|m.data|, m.data))
    ensures Holds(With(list, evt, m.urgent), With(ms, m, m.urgent))
  {
  }

  /** A used node has an entry, and its room is exactly its length. */
  ghost predicate Tidy(list: seq<Node<Event>>)
    reads list`entry
  {
    forall i :: 0 <= i < |list| ==> list[i].entry.Some? && list[i].entry.value.len == |list[i].entry.value.room|
  }

  lemma TidyWith(list: seq<Node<Event>>, evt: Node<Event>)
    requires Tidy(list) && Tidy([evt])
    ensures Tidy([evt] + list)
  {
    assert [evt][0] == evt;
  }

  /** Takes the first node off a list. */
  method Pop(head: Node<Event>, ghost list: seq<Node<Event>>) returns (first: Node<Event>)
    requires Ring([head] + list) && list != []
    modifies NodeSet([head] + list)`next, NodeSet([head] + list)`prev
    ensures Ring([head] + list[1..])
    ensures first == list[0] && first !in [head] + list[1..]
  {
    ghost var ring := [head] + list;
    NextOf(ring, 0);
    first := head.next;
    assert first == ring[1];
    assert Without(ring, 1) == [head] + list[1..];
    assert forall k :: 0 <= k < |list| - 1 ==> list[1..][k] == ring[k+2];
    Del(first, ring, 1);
  }

  /** Puts a node at the front or at the end of a list. */
  method Push(head: Node<Event>, evt: Node<Event>, front: bool, ghost list: seq<Node<Event>>)
    requires Ring([head] + list) && evt !in [head] + list
    modifies evt`next, evt`prev, NodeSet([head] + list)`next, NodeSet([head] + list)`prev
    ensures Ring([head] + With(list, evt, front))
  {
    ghost var ring := [head] + list;
    assert Inserted(ring, 1, evt) == [head] + ([evt] + list);
    assert Inserted(ring, |ring|, evt) == [head] + (list + [evt]);
    if front {
      Add(evt, head, ring);
    } else {
      AddTail(evt, head, ring, 0);
    }
  }

  /** The same, next to a ring `other` that it leaves alone. */
  method PushBeside(head: Node<Event>, evt: Node<Event>, front: bool, ghost list: seq<Node<Event>>,
                    ghost other: seq<Node<Event>>)
    requires Ring([head] + list) && evt !in [head] + list
    requires Ring(other) && evt !in other && NodeSet(other) !! NodeSet([head] + list)
    modifies evt`next, evt`prev, NodeSet([head] + list)`next, NodeSet([head] + list)`prev
    ensures Ring([head] + With(list, evt, front)) && Ring(other)
  {
    hide Ring;
    assert forall x :: x in other ==> x != evt && x !in NodeSet([head] + list) by {
      assert forall x :: x in other ==> x in NodeSet(other);
    }
    Push(head, evt, front, list);
  }

  /** The loop of `event_close`: takes every node off a list; `freed` are the nodes
    * given back, in that order. */
  method FreeAll(head: Node<Event>, ghost list: seq<Node<Event>>) returns (freed: seq<Node<Event>>)
    requires Ring([head] + list)
    modifies NodeSet([head] + list)`next, NodeSet([head] + list)`prev
    ensures Ring([head]) && freed == list
  {
    ghost var rest := list;
    freed := [];
    var empty := Empty(head, [head] + rest);
    while !empty
      invariant Ring([head] + rest) && NodeSet([head] + rest) <= NodeSet([head] + list)
      invariant list == freed + rest
      invariant empty <==> rest == []
      decreases |rest|
    {
      var n := Pop(head, rest);
      assert forall x :: x in [head] + rest[1..] ==> x in [head] + rest;
      freed := freed + [n];
      rest := rest[1..];
      empty := Empty(head, [head] + rest);
    }
    assert [head] + rest == [head];
  }

  class EventDev {
    var counter: int
    var cache_count: int
    const bufs: Node<Event>
    const buf_cache: Node<Event>
    ghost var Bufs: seq<Node<Event>>
    ghost var Cache: seq<Node<Event>>
    ghost var Ops: seq<Op>             // the calls made so far

    ghost function Queue(): set<Node<Event>>
      reads this
    {
      NodeSet([bufs] + Bufs)
    }

    ghost function Spare(): set<Node<Event>>
      reads this
    {
      NodeSet([buf_cache] + Cache)
    }

    /** Two separate well-formed lists, counted by the two counters; the queue holds
      * the pending messages of the run so far, and every node's room is exactly its
      * length. */
    ghost predicate Valid()
      reads this, bufs, buf_cache, Bufs, Cache
    {
      Lists() && counter == |Bufs|
    }

    ghost predicate Lists()
      reads this, bufs, buf_cache, Bufs, Cache
    {
      && Ring([bufs] + Bufs) && Ring([buf_cache] + Cache)
      && Queue() !! Spare()
      && cache_count == |Cache| <= CACHE_MAX
      && Holds(Bufs, Run(Ops).pending) && Tidy(Cache)
    }

    /** `event_open`. */
    constructor ()
      ensures Valid() && Ops == [] && Cache == []
    {
      counter, cache_count := 0, 0;
      bufs := new Node(None);
      buf_cache := new Node(None);
      Bufs, Cache, Ops := [], [], [];
      new;
      Init(bufs);
      Init(buf_cache);
      assert [bufs] + Bufs == [bufs] && [buf_cache] + Cache == [buf_cache];
    }

    /** The first spare node would hold `len` bytes exactly. */
    ghost predicate Fits(len: nat)
      reads this, Cache`entry
    {
      Cache != [] && Cache[0].entry.Some? && Cache[0].entry.value.len == len
    }

    /** Takes a node of the right size from the cache, or allocates one. */
    method GetNode(len: nat) returns (evt: Node<Event>)
      requires Valid()
      modifies this`cache_count, this`Cache, Spare()`next, Spare()`prev
      ensures Valid() && evt !in Queue() + Spare()
      ensures evt.entry.Some? && |evt.entry.value.room| == len
      ensures Cache == if old(Fits(len)) then old(Cache)[1..] else old(Cache)
      ensures if old(Fits(len)) then evt == old(Cache[0]) else fresh(evt)
    {
      hide Ring;
      assert cache_count > 0 ==> buf_cache.next == Cache[0] by { NextOf([buf_cache] + Cache, 0); }
      if cache_count > 0 {
        var first: Node<Event> := buf_cache.next;
        if first.entry.value.len == len {
          TakeSpare();
          return first;
        }
      }
      evt := new Node(Some(Event(len, seq(len, _ => 0))));
    }

    method TakeSpare()
      requires Valid() && cache_count > 0
      modifies this`cache_count, this`Cache, Spare()`next, Spare()`prev
      ensures Valid() && old(Cache[0]) !in Queue() + Spare()
      ensures Cache == old(Cache)[1..]
    {
      hide Ring, Holds, Run;
      var first := Pop(buf_cache, Cache);
      Cache := Cache[1..];
      cache_count := cache_count - 1;
      assert forall x :: x in Spare() ==> x in old(Spare());
    }

    /** `_event_write`. */
    method Write(buf: seq<byte>, urgent: bool) returns (ret: int)
      requires Valid()
      modifies this, Queue(), Spare()
      ensures Valid() && ret == |buf|
      ensures Ops == old(Ops) + [Op.Write(buf, urgent)]
      ensures Cache == if old(Fits(|buf|)) then old(Cache)[1..] else old(Cache)
      ensures fresh(Queue() + Spare() - old(Queue() + Spare()))
    {
      hide Ring, Tidy, Holds, Run;
      ret := |buf|;
      var evt := GetNode(|buf|);
      counter := counter + 1;
      Fill(evt, buf);
      assert evt.entry.value.room == buf;
      Enqueue(evt, buf, urgent);
    }

    /** `evt->len = len; memcpy(evt->buf, buf, len)`: overwrites the old bytes. */
    method Fill(evt: Node<Event>, buf: seq<byte>)
      requires Lists() && evt !in Queue() + Spare()
      requires evt.entry.Some? && |buf| <= |evt.entry.value.room|
      modifies evt`entry
      ensures Lists()
      ensures evt.entry == Some(Event(|buf|, buf + old(evt.entry.value.room)[|buf|..]))
    {
      hide Run;
      assert forall k :: 0 <= k < |Bufs| ==> Bufs[k] in Queue() by {
        assert Bufs == ([bufs] + Bufs)[1..];
      }
      assert forall k :: 0 <= k < |Cache| ==> Cache[k] in Spare() by {
        assert Cache == ([buf_cache] + Cache)[1..];
      }
      evt.entry := Some(Event(|buf|, buf + evt.entry.value.room[|buf|..]));
    }

    /** The part of `_event_write` that has its node and has counted the message. */
    method Enqueue(evt: Node<Event>, buf: seq<byte>, urgent: bool)
      requires Lists() && counter == |Bufs| + 1
      requires evt !in Queue() + Spare() && evt.entry == Some(Event(|buf|, buf))
      modifies this`Bufs, this`Ops, evt`next, evt`prev, Queue()`next, Queue()`prev
      ensures Valid()
      ensures Ops == old(Ops) + [Op.Write(buf, urgent)]
      ensures Queue() == old(Queue()) + {evt}
    {
      hide Ring, Tidy, Run, Holds, With, Step;
      ghost var op, more := Op.Write(buf, urgent), With(Bufs, evt, urgent);
      NodesWith(bufs, Bufs, evt, urgent);
      RunWrite(Ops, buf, urgent);
      PushBeside(bufs, evt, urgent, Bufs, [buf_cache] + Cache);
      HoldsWith(Bufs, Run(Ops).pending, evt, Message(buf, urgent, |Ops|));
      assert Holds(more, Run(Ops + [op]).pending) && Tidy(Cache);
      Bufs, Ops := more, Ops + [op];
      assert Queue() == old(Queue()) + {evt} && Spare() == old(Spare());
    }

    /** `event_read`: the next message, cut to `len` bytes; 0 bytes when there is none. */
    method Read(len: nat) returns (buf: seq<byte>)
      requires Valid()
      modifies this, Queue(), Spare()
      ensures Valid() && Ops == old(Ops) + [Op.Read]
      ensures old(Run(Ops).pending) == [] ==> buf == [] && Cache == old(Cache)
      ensures old(Run(Ops).pending) != [] ==>
                && (var data := old(Run(Ops).pending)[0].data; buf == if |data| <= len then data else data[..len])
                && Cache == if |old(Cache)| < 4 then [old(Bufs)[0]] + old(Cache) else old(Cache)
      ensures Queue() + Spare() <= old(Queue() + Spare())
    {
      hide Ring, Run;
      if counter == 0 {
        RunStep(Ops, Op.Read);
        Ops := Ops + [Op.Read];
        return [];
      }
      var evt := Dequeue();
      var event := evt.entry.value;
      buf := event.room[..if len > event.len then event.len else len];
      counter := counter - 1;
      Recycle(evt);
    }

    /** Takes the first message off the queue. */
    method Dequeue() returns (evt: Node<Event>)
      requires Valid() && counter > 0
      modifies this`Bufs, this`Ops, Queue()`next, Queue()`prev
      ensures Ring([bufs] + Bufs) && |Bufs| == |old(Bufs)| - 1 && Queue() <= old(Queue())
      ensures Ops == old(Ops) + [Op.Read] && Holds(Bufs, Run(Ops).pending)
      ensures evt == old(Bufs)[0] && evt in old(Queue()) && evt !in Queue()
      ensures old(Run(Ops).pending) != []
      ensures var m := old(Run(Ops).pending)[0].data; evt.entry == Some(Event(|m|, m))
    {
      hide Ring, Tidy, Run;
      evt := Pop(bufs, Bufs);
      Bufs := Bufs[1..];
      RunStep(Ops, Op.Read);
      Ops := Ops + [Op.Read];
      assert forall x :: x in Queue() ==> x in old(Queue());
      assert evt in [bufs] + old(Bufs);
    }

    /** Keeps a used node while the cache has space. */
    method Recycle(evt: Node<Event>)
      requires Ring([bufs] + Bufs) && Ring([buf_cache] + Cache) && Queue() !! Spare()
      requires counter == |Bufs| && cache_count == |Cache| <= CACHE_MAX
      requires Holds(Bufs, Run(Ops).pending) && Tidy(Cache)
      requires evt !in Queue() + Spare() && Tidy([evt])
      modifies this`Cache, this`cache_count, evt`next, evt`prev, Spare()`next, Spare()`prev
      ensures Valid()
      ensures Cache == if |old(Cache)| < CACHE_MAX then [evt] + old(Cache) else old(Cache)
      ensures Spare() <= old(Spare()) + {evt}
    {
      hide Ring, Holds, Tidy, Run;
      if cache_count < CACHE_MAX {
        assert evt !in [buf_cache] + Cache by { assert evt !in Spare(); }
        NodesWith(buf_cache, Cache, evt, true);
        PushBeside(buf_cache, evt, true, Cache, [bufs] + Bufs);
        TidyWith(Cache, evt);
        Cache, cache_count := [evt] + Cache, cache_count + 1;
        assert Spare() == old(Spare()) + {evt};
        assert Tidy(Cache);
      }
    }

    lemma Apart()
      requires Valid()
      ensures Distinct(Bufs + Cache)
    {
      hide Tidy, Holds, Run;
      var p, q := [bufs] + Bufs, [buf_cache] + Cache;
      assert p[1..] == Bufs && q[1..] == Cache;
      assert Distinct(p[1..]) && Distinct(q[1..]);
      hide Ring, Distinct;
      forall x, y | x in Bufs && y in Cache
        ensures x != y
      {
        assert x in Queue() && y in Spare();
      }
      DistinctSum(Bufs, Cache);
    }

    /** `event_close`: every node of both lists is given back once. */
    method Close() returns (freed: seq<Node<Event>>)
      requires Valid()
      modifies this, Queue(), Spare()
      ensures freed == old(Bufs) + old(Cache) && Distinct(freed)
    {
      hide Tidy, Holds, Run;
      Apart();
      var pending := FreeAll(bufs, Bufs);
      var spare := FreeAll(buf_cache, Cache);
      freed := pending + spare;
    }
  }

  lemma DistinctSum(a: seq<Node<Event>>, b: seq<Node<Event>>)
    requires Distinct(a) && Distinct(b)
    requires forall x, y :: x in a && y in b ==> x != y
    ensures Distinct(a + b)
  {
    assert forall k :: 0 <= k < |a + b| ==> (a + b)[k] == if k < |a| then a[k] else b[k - |a|];
    assert forall k :: 0 <= k < |b| ==> b[k] in b;
    assert forall k :: 0 <= k < |a| ==> a[k] in a;
  }

  lemma RunWrite(ops: seq<Op>, buf: seq<byte>, urgent: bool)
    ensures Run(ops + [Op.Write(buf, urgent)]).pending
            == With(Run(ops).pending, Message(buf, urgent, |ops|), urgent)
  {
    RunStep(ops, Op.Write(buf, urgent));
  }

  lemma RunStep(ops: seq<Op>, op: Op)
    ensures Run(ops + [op]) == Step(Run(ops), op, |ops|)
  {
    assert (ops + [op])[..|ops|] == ops;
  }
}
